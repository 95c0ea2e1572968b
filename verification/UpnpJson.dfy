// source/upnp_error_codes.c: finding a code and its three texts in the JSON registry by scanning.

module UpnpJson {
  import opened CStrings
  import AsciiSafe
  import Versions

  predicate IsBlank(c: char) { c == ' ' || c == '\t' || c == '\r' || c == '\n' }

  /** `while (q < end && blank(*q)) ++q;` */
  function SkipBlanks(text: string, q: nat, end: nat): (r: nat)
    requires end <= |text|
    ensures q <= r && (r < end ==> !IsBlank(text[r])) && (q <= end ==> r <= end)
    decreases end - q
  {
    if q < end && IsBlank(text[q]) then SkipBlanks(text, q + 1, end) else q
  }

  predicate Matches(text: string, j: nat, pattern: string) {
    j + |pattern| <= |text| && text[j..j + |pattern|] == pattern
  }

  /** The colon that follows at `q`, after blanks. */
  function Colon(text: string, q: nat, end: nat): (r: Option<nat>)
    requires end <= |text|
    ensures r.Some? ==> q <= r.value < end && text[r.value] == ':'
  {
    var p := SkipBlanks(text, q, end);
    if p < end && text[p] == ':' then Some(p) else None
  }

  predicate KeyAt(text: string, j: nat, end: nat, pattern: string)
    requires end <= |text|
  {
    Matches(text, j, pattern) && Colon(text, j + |pattern|, end).Some?
  }

  /** The first place in `from .. end` where the pattern stands with a colon behind it. */
  function FirstKey(text: string, from: nat, end: nat, pattern: string): (r: Option<nat>)
    requires end <= |text|
    ensures r.Some? ==> from <= r.value < end && KeyAt(text, r.value, end, pattern)
    decreases end - from
  {
    if from >= end then None
    else if KeyAt(text, from, end, pattern) then Some(from)
    else FirstKey(text, from + 1, end, pattern)
  }

  lemma {:induction false} FirstKeySkips(text: string, from: nat, to: nat, end: nat, pattern: string)
    requires from <= to && end <= |text|
    requires forall j :: from <= j < to && j < end ==> !KeyAt(text, j, end, pattern)
    ensures FirstKey(text, from, end, pattern) == FirstKey(text, to, end, pattern)
    decreases end - from
  {
    if from < to && from < end {
      FirstKeySkips(text, from + 1, to, end, pattern);
    }
  }

  /** The colon behind the first such key. */
  function KeyColon(text: string, from: nat, end: nat, pattern: string): Option<nat>
    requires end <= |text|
  {
    match FirstKey(text, from, end, pattern)
    case None => None
    case Some(j) => Colon(text, j + |pattern|, end)
  }

  function Quoted(key: string): string { "\"" + key + "\"" }

  /** `strstr` */
  method Strstr(text: string, from: nat, pattern: string) returns (found: Option<nat>)
    ensures found.Some? ==> from <= found.value && Matches(text, found.value, pattern)
    ensures forall j :: from <= j && (found.Some? ==> j < found.value) ==> !Matches(text, j, pattern)
  {
    var j := from;
    while j + |pattern| <= |text|
      invariant from <= j && forall k :: from <= k < j ==> !Matches(text, k, pattern)
      decreases |text| - j
    {
      if text[j..j + |pattern|] == pattern {
        return Some(j);
      }
      j := j + 1;
    }
    found := None;
  }

  method SkipBlankChars(text: string, start: nat, end: nat) returns (q: nat)
    requires end <= |text|
    ensures q == SkipBlanks(text, start, end)
  {
    q := start;
    while q < end && IsBlank(text[q])
      invariant SkipBlanks(text, start, end) == SkipBlanks(text, q, end)
      decreases end - q
    {
      q := q + 1;
    }
  }

  /** The search loop of both scans: the position of the colon behind the first such key. */
  method FindKey(text: string, start: nat, end: nat, pattern: string) returns (colon: Option<nat>)
    requires end <= |text| && pattern != []
    ensures colon == KeyColon(text, start, end, pattern)
  {
    var p := start;
    while p < end
      invariant start <= p
      invariant forall j :: start <= j < p && j < end ==> !KeyAt(text, j, end, pattern)
      decreases end - p
    {
      var keyPos := Strstr(text, p, pattern);
      if keyPos.None? || keyPos.value >= end {
        break;
      }
      var q := SkipBlankChars(text, keyPos.value + |pattern|, end);
      if q < end && text[q] == ':' {
        FirstKeyIs(text, start, keyPos.value, end, pattern);
        return Some(q);
      }
      p := keyPos.value + 1;
    }
    NoFirstKey(text, start, end, pattern);
    colon := None;
  }

  lemma FirstKeyIs(text: string, from: nat, j: nat, end: nat, pattern: string)
    requires from <= j < end <= |text| && KeyAt(text, j, end, pattern)
    requires forall i :: from <= i < j ==> !KeyAt(text, i, end, pattern)
    ensures FirstKey(text, from, end, pattern) == Some(j)
  {
    FirstKeySkips(text, from, j, end, pattern);
  }

  lemma NoFirstKey(text: string, from: nat, end: nat, pattern: string)
    requires end <= |text|
    requires forall i :: from <= i < end ==> !KeyAt(text, i, end, pattern)
    ensures FirstKey(text, from, end, pattern) == None
  {
    if from < end {
      FirstKeySkips(text, from, end, end, pattern);
    }
  }

  // ---- String values ----

  function Unescape(c: char): char {
    match c
    case 'n' => '\n'
    case 'r' => '\r'
    case 't' => '\t'
    case _ => c
  }

  /** What the copying loop makes of the string from `q` on, having copied `sofar` into a buffer of `size` bytes. */
  function DecodedFrom(text: string, q: nat, end: nat, sofar: string, size: nat): (r: Option<string>)
    requires end <= |text| && IsText(text) && IsText(sofar) && |sofar| < size
    ensures r.Some? ==> IsText(r.value) && |r.value| < size
    decreases end - q
  {
    if q >= end then None
    else if text[q] == '"' then Some(sofar)
    else if |sofar| + 1 >= size then None
    else if text[q] == '\\' && q + 1 < end then DecodedFrom(text, q + 2, end, sofar + [Unescape(text[q + 1])], size)
    else DecodedFrom(text, q + 1, end, sofar + [text[q]], size)
  }

  /** The string value that starts behind blanks at `p`. */
  function ValueBehind(text: string, p: nat, end: nat, size: nat): (r: Option<string>)
    requires end <= |text| && IsText(text) && size > 0
    ensures r.Some? ==> IsText(r.value) && |r.value| < size
  {
    var q := SkipBlanks(text, p, end);
    if q >= end || text[q] != '"' then None else DecodedFrom(text, q + 1, end, [], size)
  }

  function ReadValue(text: string, start: nat, end: nat, key: string, size: nat): (r: Option<string>)
    requires end <= |text| && IsText(text) && size > 0
    ensures r.Some? ==> IsText(r.value) && |r.value| < size
  {
    var colon := KeyColon(text, start, end, Quoted(key));
    if colon.None? then None else ValueBehind(text, colon.value + 1, end, size)
  }

  const MAX_PATTERN: nat := 96

  /** `rr_json_read_string`: the value of the first such key, transliterated to ASCII in the output buffer. */
  method ReadString(text: string, start: nat, end: nat, key: string, out: array<char>) returns (ok: bool)
    requires end <= |text| && IsText(text)
    modifies out
    ensures ok <==> out.Length > 0 && |key| + 2 < 96 && ReadValue(text, start, end, key, out.Length).Some?
    ensures ok ==> HoldsText(out[..], AsciiSafe.Transliterated(ReadValue(text, start, end, key, out.Length).value, 0))
  {
    if out.Length == 0 || |Quoted(key)| >= MAX_PATTERN {
      return false;
    }
    var colon := FindKey(text, start, end, Quoted(key));
    if colon.None? {
      return false;
    }
    var q := SkipBlankChars(text, colon.value + 1, end);
    if q >= end || text[q] != '"' {
      return false;
    }
    ok := CopyAscii(text, q + 1, end, out);
  }

  /** The value from `start` on, decoded and then transliterated in the same buffer. */
  method CopyAscii(text: string, start: nat, end: nat, out: array<char>) returns (ok: bool)
    requires end <= |text| && IsText(text) && out.Length > 0
    modifies out
    ensures ok == DecodedFrom(text, start, end, [], out.Length).Some?
    ensures ok ==> HoldsText(out[..], AsciiSafe.Transliterated(DecodedFrom(text, start, end, [], out.Length).value, 0))
  {
    var used;
    ok, used := CopyValue(text, start, end, out);
    if ok {
      ghost var value := DecodedFrom(text, start, end, [], out.Length).value;
      assert out[..used] == value;
      AsciiSafe.ConvertToAscii(out, used, out, out.Length);
    }
  }

  /** The copying loop: on success `out` holds the decoded value of `used` bytes. */
  method CopyValue(text: string, start: nat, end: nat, out: array<char>) returns (ok: bool, used: nat)
    requires end <= |text| && IsText(text) && out.Length > 0
    modifies out
    ensures var value := DecodedFrom(text, start, end, [], out.Length);
            && ok == value.Some?
            && (ok ==> used == |value.value| && HoldsText(out[..], value.value))
  {
    var q := start;
    used := 0;
    ghost var value := DecodedFrom(text, start, end, [], out.Length);
    while q < end
      invariant used < out.Length && IsText(out[..used])
      invariant value == DecodedFrom(text, q, end, out[..used], out.Length)
      decreases end - q
    {
      if text[q] == '"' {
        out[used] := '\0';
        return true, used;
      }
      if used + 1 >= out.Length {
        return false, used;
      }
      ghost var sofar := out[..used];
      if text[q] == '\\' && q + 1 < end {
        out[used] := Unescape(text[q + 1]);
        q := q + 2;
      } else {
        out[used] := text[q];
        q := q + 1;
      }
      assert out[..used + 1] == sofar + [out[used]];
      used := used + 1;
    }
    ok := false;
  }

  // ---- Objects ----

  /** The brace that brings the depth back to zero, ignoring what stands inside strings. */
  function ObjectEnd(text: string, p: nat, end: nat, depth: int, inString: bool): (r: Option<nat>)
    requires end <= |text|
    ensures r.Some? ==> p <= r.value < end
    decreases end - p
  {
    if p >= end then None
    else if inString then
      if text[p] == '\\' && p + 1 < end then ObjectEnd(text, p + 2, end, depth, true)
      else ObjectEnd(text, p + 1, end, depth, text[p] != '"')
    else if text[p] == '"' then ObjectEnd(text, p + 1, end, depth, true)
    else if text[p] == '{' then ObjectEnd(text, p + 1, end, depth + 1, false)
    else if text[p] == '}' then
      if depth == 1 then Some(p) else ObjectEnd(text, p + 1, end, depth - 1, false)
    else ObjectEnd(text, p + 1, end, depth, false)
  }

  /** `rr_json_find_object_end` */
  method FindObjectEnd(text: string, objectStart: nat, end: nat) returns (objectEnd: Option<nat>)
    requires end <= |text|
    ensures objectEnd == ObjectEnd(text, objectStart, end, 0, false)
  {
    var depth, inString, p := 0, false, objectStart;
    while p < end
      invariant ObjectEnd(text, objectStart, end, 0, false) == ObjectEnd(text, p, end, depth, inString)
      decreases end - p
    {
      if inString {
        if text[p] == '\\' && p + 1 < end {
          p := p + 2;
          continue;
        }
        if text[p] == '"' {
          inString := false;
        }
      } else if text[p] == '"' {
        inString := true;
      } else if text[p] == '{' {
        depth := depth + 1;
      } else if text[p] == '}' {
        depth := depth - 1;
        if depth == 0 {
          return Some(p);
        }
      }
      p := p + 1;
    }
    objectEnd := None;
  }

  // ---- The lookup ----

  const NAME_SIZE: nat := 64
  const TEXT_SIZE: nat := 256

  /** `rr_upnp_error_info_t` */
  datatype Info = Info(code: int, known: bool, name: string, description: string, solution: string)

  function NoCode(code: int): Info {
    Info(code, false, "No UPnP error code", "The router did not return a UPnP SOAP error code.",
         "Check the router connection and UPnP status.")
  }

  function Unknown(code: int): Info {
    Info(code, false, "Unknown UPnP error", "The router returned a UPnP error code that is not yet in the registry.",
         "Check the router documentation or add this code to upnp_error_codes.json.")
  }

  /** `strchr(p, '{')` */
  function FirstBrace(text: string, p: nat): (r: Option<nat>)
    ensures r.Some? ==> p <= r.value < |text| && text[r.value] == '{'
    decreases |text| - p
  {
    if p >= |text| then None else if text[p] == '{' then Some(p) else FirstBrace(text, p + 1)
  }

  function ReadText(text: string, start: nat, end: nat, key: string, size: nat): Option<string>
    requires end <= |text| && IsText(text) && size > 0
  {
    var value := ReadValue(text, start, end, key, size);
    if value.None? then None else Some(AsciiSafe.Transliterated(value.value, 0))
  }

  function InfoIn(text: string, start: nat, end: nat, code: int): Info
    requires end <= |text| && IsText(text)
  {
    var name := ReadText(text, start, end, "name", NAME_SIZE);
    var description := ReadText(text, start, end, "description", TEXT_SIZE);
    var solution := ReadText(text, start, end, "solution", TEXT_SIZE);
    if name.None? || description.None? || solution.None? then Unknown(code)
    else Info(code, true, name.value, description.value, solution.value)
  }

  /** The info behind the colon of the code's key. */
  function InfoAfter(text: string, colon: nat, end: nat, code: int): Info
    requires end <= |text| && IsText(text)
  {
    var start := FirstBrace(text, colon);
    if start.None? || start.value >= end then Unknown(code)
    else
      match ObjectEnd(text, start.value, end, 0, false)
      case None => Unknown(code)
      case Some(e) => InfoIn(text, start.value, e, code)
  }

  function InfoAt(text: string, end: nat, pattern: string, code: int): Info
    requires end <= |text| && IsText(text)
  {
    var colon := KeyColon(text, 0, end, pattern);
    if colon.None? then Unknown(code) else InfoAfter(text, colon.value, end, code)
  }

  function LookedUp(text: string, end: nat, code: int): Info
    requires end <= |text| && IsText(text)
  {
    if code <= 0 then NoCode(code) else InfoAt(text, end, Quoted(Versions.Decimal(code)), code)
  }

  /**
   * `rr_upnp_error_lookup`: `text` is the memory from the registry's first byte to the next NUL, the registry its
   * first `jsonEnd` bytes. The function's own result is `info.known`.
   */
  method Lookup(text: string, jsonEnd: nat, code: int) returns (info: Info)
    requires jsonEnd <= |text| && IsText(text)
    ensures info == LookedUp(text, jsonEnd, code)
  {
    if code <= 0 {
      return NoCode(code);
    }
    info := LookupPattern(text, jsonEnd, Quoted(Versions.Decimal(code)), code);
  }

  /** The lookup of a positive code, printed between quotes. */
  method LookupPattern(text: string, jsonEnd: nat, codeKey: string, code: int) returns (info: Info)
    requires jsonEnd <= |text| && IsText(text) && codeKey != []
    ensures info == InfoAt(text, jsonEnd, codeKey, code)
  {
    var after := FindKey(text, 0, jsonEnd, codeKey);
    if after.None? {
      return Unknown(code);
    }
    info := LookupAfter(text, after.value, jsonEnd, code);
  }

  /** The rest of the lookup, behind the code's key. */
  method LookupAfter(text: string, colon: nat, jsonEnd: nat, code: int) returns (info: Info)
    requires jsonEnd <= |text| && IsText(text)
    ensures info == InfoAfter(text, colon, jsonEnd, code)
  {
    var objectStart := Strchr(text, colon);
    if objectStart.None? || objectStart.value >= jsonEnd {
      return Unknown(code);
    }
    var objectEnd := FindObjectEnd(text, objectStart.value, jsonEnd);
    if objectEnd.None? {
      return Unknown(code);
    }
    info := ReadInfo(text, objectStart.value, objectEnd.value, code);
  }

  method Strchr(text: string, start: nat) returns (found: Option<nat>)
    ensures found == FirstBrace(text, start)
  {
    var p := start;
    while p < |text| && text[p] != '{'
      invariant FirstBrace(text, start) == FirstBrace(text, p)
      decreases |text| - p
    {
      p := p + 1;
    }
    found := if p < |text| then Some(p) else None;
  }

  method ReadInfo(text: string, start: nat, end: nat, code: int) returns (info: Info)
    requires end <= |text| && IsText(text)
    ensures info == InfoIn(text, start, end, code)
  {
    var name := ReadField(text, start, end, "name", NAME_SIZE);
    if name.None? {
      return Unknown(code);
    }
    var description := ReadField(text, start, end, "description", TEXT_SIZE);
    if description.None? {
      return Unknown(code);
    }
    var solution := ReadField(text, start, end, "solution", TEXT_SIZE);
    if solution.None? {
      return Unknown(code);
    }
    info := Info(code, true, name.value, description.value, solution.value);
  }

  /** One field of the result, through its buffer. */
  method ReadField(text: string, start: nat, end: nat, key: string, size: nat) returns (field: Option<string>)
    requires end <= |text| && IsText(text) && size > 0 && |Quoted(key)| < MAX_PATTERN
    ensures field == ReadText(text, start, end, key, size)
  {
    var buffer := new char[size](_ => '\0');
    var ok := ReadString(text, start, end, key, buffer);
    if !ok {
      return None;
    }
    var t := CText(buffer, ReadText(text, start, end, key, size).value);
    field := Some(t);
  }

  /** The C string in a buffer. */
  method CText(buffer: array<char>, ghost t: string) returns (r: string)
    requires HoldsText(buffer[..], t) && forall i :: 0 <= i < |t| ==> t[i] != '\0'
    ensures r == t
  {
    var n := 0;
    assert forall i :: 0 <= i < |t| ==> buffer[..|t|][i] == t[i];
    while buffer[n] != '\0'
      invariant n <= |t| < buffer.Length && buffer[|t|] == '\0'
      invariant forall i :: 0 <= i < |t| ==> buffer[i] == t[i]
      decreases |t| - n
    {
      n := n + 1;
    }
    r := buffer[..n];
  }
}
