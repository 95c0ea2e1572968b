// source/versionutils.c, and the version text written by source/update/update.c.

/** Three-part versions: their order, reading them from text, and printing them. */
module Versions {
  import opened CStrings

  datatype Version = Version(major: int, minor: int, patch: int)

  const INT_MAX: int := 0x7FFF_FFFF
  const INT_MIN: int := -0x8000_0000

  /** `rrc_version_is_older` */
  predicate IsOlder(a: Version, b: Version) {
    if a.major < b.major then true
    else if a.major > b.major then false
    else if a.minor < b.minor then true
    else if a.minor > b.minor then false
    else a.patch < b.patch
  }

  /** Exactly one of older, equal, newer; and older is transitive. */
  lemma OlderIsStrictTotalOrder(a: Version, b: Version, c: Version)
    ensures !IsOlder(a, a)
    ensures a == b || IsOlder(a, b) || IsOlder(b, a)
    ensures IsOlder(a, b) ==> !IsOlder(b, a) && a != b
    ensures IsOlder(a, b) && IsOlder(b, c) ==> IsOlder(a, c)
  {
  }

  // ---- strtol ----

  predicate IsDigit(c: char) { '0' <= c <= '9' }

  predicate IsSpace(c: char) { c == ' ' || '\t' <= c <= '\r' }

  function DigitValue(c: char): int
    requires IsDigit(c)
  {
    c as int - '0' as int
  }

  /** The value of the leading digits, continuing from `acc`. */
  function Digits(s: string, acc: nat): nat {
    if s == [] || !IsDigit(s[0]) then acc else Digits(s[1..], acc * 10 + DigitValue(s[0]))
  }

  /** `strtol(s, NULL, 10)` for a 32-bit long: blanks, a sign, digits, clamped. */
  function Strtol(s: string): (r: int)
    ensures INT_MIN <= r <= INT_MAX
  {
    if s != [] && IsSpace(s[0]) then Strtol(s[1..])
    else
      var negative := s != [] && s[0] == '-';
      var rest := if s != [] && (s[0] == '-' || s[0] == '+') then s[1..] else s;
      var magnitude: int := Digits(rest, 0);
      var value := if negative then -magnitude else magnitude;
      if value < INT_MIN then INT_MIN else if value > INT_MAX then INT_MAX else value
  }

  // ---- Reading ----

  /** Index of the first dot, or the length. */
  function SectionEnd(s: string): (e: nat)
    ensures e <= |s| && (e < |s| ==> s[e] == '.') && forall j :: 0 <= j < e ==> s[j] != '.'
  {
    if s == [] || s[0] == '.' then 0
    else
      SectionEnd(s[1..]) + 1
  }

  /** The sections from number `current` on: an empty section is an error, nothing is read after the third. */
  function Sections(s: string, current: nat): (r: Option<seq<string>>)
    requires current <= 2
    ensures r.Some? ==> 1 <= |r.value| <= 3 - current
    decreases 2 - current
  {
    var e := SectionEnd(s);
    if e == 0 then None
    else if current == 2 || e == |s| then Some([s[..e]])
    else Prepended([s[..e]], Sections(s[e + 1..], current + 1))
  }

  function Prepended(front: seq<string>, rest: Option<seq<string>>): (r: Option<seq<string>>)
    ensures r.Some? <==> rest.Some?
    ensures r.Some? ==> |r.value| == |front| + |rest.value|
  {
    if rest.None? then None else Some(front + rest.value)
  }

  lemma PrependNothing(rest: Option<seq<string>>)
    ensures Prepended([], rest) == rest
  {
    assert rest.Some? ==> [] + rest.value == rest.value;
  }

  /** Missing sections are zero. */
  function OfSections(sections: seq<string>): Version
    requires 1 <= |sections| <= 3
  {
    Version(Strtol(sections[0]), if |sections| > 1 then Strtol(sections[1]) else 0,
            if |sections| > 2 then Strtol(sections[2]) else 0)
  }

  function Parsed(s: string): Option<Version> {
    var sections := Sections(s, 0);
    if sections.None? then None else Some(OfSections(sections.value))
  }

  /** Whatever text was read, the version can be printed. */
  lemma ParsedInRange(s: string)
    requires Parsed(s).Some?
    ensures Printable(Parsed(s).value)
  {
  }

  lemma SectionEndIs(s: string, e: nat)
    requires e <= |s| && (e == |s| || s[e] == '.') && forall j :: 0 <= j < e ==> s[j] != '.'
    ensures SectionEnd(s) == e
  {
    var f := SectionEnd(s);
  }

  /** The section from `start` ends at `i`. */
  lemma SectionEndsAt(s: string, start: nat, i: nat, current: nat)
    requires start <= i <= |s| && current <= 2 && (i == |s| || s[i] == '.')
    requires forall j :: start <= j < i ==> s[j] != '.'
    ensures Sections(s[start..], current)
              == if i == start then None
                 else if current == 2 || i == |s| then Some([s[start..i]])
                 else Prepended([s[start..i]], Sections(s[i + 1..], current + 1))
  {
    var tail, e := s[start..], i - start;
    assert tail[..e] == s[start..i];
    SectionEndIs(tail, e);
    assert i < |s| ==> tail[e + 1..] == s[i + 1..];
  }

  lemma PrependedTwice(a: seq<string>, b: seq<string>, rest: Option<seq<string>>)
    ensures Prepended(a, Prepended(b, rest)) == Prepended(a + b, rest)
  {
    assert rest.Some? ==> a + (b + rest.value) == a + b + rest.value;
  }

  /** The pass over the text: `done` are the sections read, `start` begins the current one, `i` is the next byte. */
  function Scanned(s: string, start: nat, i: nat, done: seq<string>): (r: Option<seq<string>>)
    requires start <= i <= |s| && |done| <= 2
    ensures r.Some? ==> 1 <= |r.value| <= 3
    decreases |s| - i
  {
    if i == |s| || s[i] == '.' then
      if i == start then None
      else
        var done' := done + [s[start..i]];
        if |done'| == 3 || i == |s| then Some(done') else Scanned(s, i + 1, i + 1, done')
    else Scanned(s, start, i + 1, done)
  }

  lemma {:induction false} ScannedIsSections(s: string, start: nat, i: nat, done: seq<string>)
    requires start <= i <= |s| && |done| <= 2 && forall j :: start <= j < i ==> s[j] != '.'
    ensures Scanned(s, start, i, done) == Prepended(done, Sections(s[start..], |done|))
    decreases |s| - i
  {
    if i == |s| || s[i] == '.' {
      if start < i < |s| && |done| < 2 {
        ScannedIsSections(s, i + 1, i + 1, done + [s[start..i]]);
      }
      ScannedAtSectionEnd(s, start, i, done);
    } else {
      ScannedIsSections(s, start, i + 1, done);
    }
  }

  lemma ScannedAtSectionEnd(s: string, start: nat, i: nat, done: seq<string>)
    requires start <= i <= |s| && |done| <= 2 && (i == |s| || s[i] == '.')
    requires forall j :: start <= j < i ==> s[j] != '.'
    requires start < i < |s| && |done| < 2 ==>
               Scanned(s, i + 1, i + 1, done + [s[start..i]])
                 == Prepended(done + [s[start..i]], Sections(s[i + 1..], |done| + 1))
    ensures Scanned(s, start, i, done) == Prepended(done, Sections(s[start..], |done|))
  {
    SectionEndsAt(s, start, i, |done|);
    if start < i < |s| && |done| < 2 {
      PrependedTwice(done, [s[start..i]], Sections(s[i + 1..], |done| + 1));
    }
  }

  lemma ScannedIsParsed(s: string)
    ensures Parsed(s) == if Scanned(s, 0, 0, []).None? then None else Some(OfSections(Scanned(s, 0, 0, []).value))
  {
    ScannedIsSections(s, 0, 0, []);
    assert s[0..] == s;
    PrependNothing(Sections(s, 0));
  }

  /** The array holds the values of the sections read so far, and zeros. */
  ghost predicate Holds(parts: seq<int>, done: seq<string>) {
    && |parts| == 3 && |done| <= 3
    && (forall j :: 0 <= j < |done| ==> parts[j] == Strtol(done[j]))
    && (forall j :: |done| <= j < 3 ==> parts[j] == 0)
  }

  lemma ScanStep(s: string, start: nat, i: nat, done: seq<string>)
    requires start <= i <= |s| && |done| <= 2
    ensures Scanned(s, start, i, done)
              == if i < |s| && s[i] != '.' then Scanned(s, start, i + 1, done)
                 else if i == start then None
                 else if |done| == 2 || i == |s| then Some(done + [s[start..i]])
                 else Scanned(s, i + 1, i + 1, done + [s[start..i]])
  {
  }

  lemma HoldsVersion(parts: seq<int>, done: seq<string>)
    requires Holds(parts, done) && done != []
    ensures Version(parts[0], parts[1], parts[2]) == OfSections(done)
  {
  }

  /** Stores the value of one more section. */
  method StoreSection(parts: array<int>, ghost done: seq<string>, current: nat, section: string)
    requires |done| == current < 3 && Holds(parts[..], done)
    modifies parts
    ensures Holds(parts[..], done + [section])
  {
    parts[current] := Strtol(section);
  }

  /** `rrc_version_from_string`: one pass over the text, collecting sections as dots and the end go by. */
  method FromString(versionStr: string) returns (version: Option<Version>)
    ensures version == Parsed(versionStr)
  {
    ScannedIsParsed(versionStr);
    var parts := new int[3](_ => 0);
    var current, startedAt := 0, 0;
    ghost var done: seq<string> := [];
    ghost var whole := Scanned(versionStr, 0, 0, []);
    var i := 0;
    while i < |versionStr| + 1
      invariant 0 <= startedAt <= i <= |versionStr| + 1
      invariant |done| == current <= 2 && Holds(parts[..], done)
      invariant whole == if i <= |versionStr| then Scanned(versionStr, startedAt, i, done) else Some(done)
      decreases |versionStr| + 1 - i
    {
      ScanStep(versionStr, startedAt, i, done);
      if i == |versionStr| || versionStr[i] == '.' {
        var sectLen := i - startedAt;
        if sectLen == 0 {
          return None;
        }
        var section := versionStr[startedAt..startedAt + sectLen];
        StoreSection(parts, done, current, section);
        done := done + [section];
        current := current + 1;
        if current > 2 {
          break;
        }
        startedAt := i + 1;
      }
      i := i + 1;
    }
    HoldsVersion(parts[..], done);
    version := Some(Version(parts[0], parts[1], parts[2]));
  }

  /** `rrc_version_equals` */
  predicate Equals(a: Version, b: Version) {
    a.major == b.major && a.minor == b.minor && a.patch == b.patch
  }

  // ---- Printing ----

  function Decimal(n: nat): (r: string)
    ensures |r| > 0
    ensures forall i :: 0 <= i < |r| ==> IsDigit(r[i])
  {
    (if n < 10 then [] else Decimal(n / 10)) + [('0' as int + n % 10) as char]
  }

  /** `%d` */
  function Signed(n: int): (r: string)
    ensures |r| > 0 && '.' !in r
  {
    if n < 0 then "-" + Decimal(-n) else Decimal(n)
  }

  /** `snprintf("%d.%d.%d")` */
  function Printed(v: Version): (r: string)
    ensures |r| > 0
  {
    Signed(v.major) + "." + (Signed(v.minor) + "." + Signed(v.patch))
  }

  /** Every part is a 32-bit int, as in `struct rrc_version`. */
  predicate Printable(v: Version) {
    INT_MIN <= v.major <= INT_MAX && INT_MIN <= v.minor <= INT_MAX && INT_MIN <= v.patch <= INT_MAX
  }

  lemma {:induction false} DigitsAppend(s: string, d: char, acc: nat)
    requires IsDigit(d) && forall i :: 0 <= i < |s| ==> IsDigit(s[i])
    ensures Digits(s + [d], acc) == Digits(s, acc) * 10 + DigitValue(d)
  {
    if s == [] {
      assert [d][1..] == [];
    } else {
      assert (s + [d])[1..] == s[1..] + [d];
      DigitsAppend(s[1..], d, acc * 10 + DigitValue(s[0]));
    }
  }

  lemma {:induction false} DecimalReadsBack(n: nat)
    ensures Digits(Decimal(n), 0) == n
  {
    var d := ('0' as int + n % 10) as char;
    if n < 10 {
      assert Decimal(n) == [d];
      assert [d][1..] == [];
    } else {
      DecimalReadsBack(n / 10);
      DigitsAppend(Decimal(n / 10), d, 0);
    }
  }

  lemma StrtolOfSigned(n: int)
    requires INT_MIN <= n <= INT_MAX
    ensures Strtol(Signed(n)) == n
  {
    var magnitude := if n < 0 then -n else n;
    DecimalReadsBack(magnitude);
    assert IsDigit(Decimal(magnitude)[0]);
    assert ("-" + Decimal(magnitude))[1..] == Decimal(magnitude);
  }

  /** A section without dots, then a dot, then more. */
  lemma SectionThenMore(first: string, rest: string, current: nat)
    requires first != [] && '.' !in first && current < 2
    ensures Sections(first + "." + rest, current) == Prepended([first], Sections(rest, current + 1))
  {
    var s, e := first + "." + rest, |first|;
    assert s[..e] == first && s[e + 1..] == rest && s[e] == '.';
    SectionEndIs(s, e);
  }

  lemma LastSection(s: string, current: nat)
    requires '.' !in s && current <= 2
    ensures Sections(s, current) == if s == [] then None else Some([s])
  {
    SectionEndIs(s, |s|);
    assert s[..|s|] == s;
  }

  lemma TwoSections(a: string, b: string)
    requires a != [] && '.' !in a && '.' !in b
    ensures Sections(a + "." + b, 0) == if b == [] then None else Some([a, b])
  {
    SectionThenMore(a, b, 0);
    LastSection(b, 1);
    assert [a] + [b] == [a, b];
  }

  lemma ThreeSections(a: string, b: string, c: string)
    requires a != [] && b != [] && '.' !in a && '.' !in b && '.' !in c
    ensures Sections(a + "." + (b + "." + c), 0) == if c == [] then None else Some([a, b, c])
  {
    SectionThenMore(a, b + "." + c, 0);
    SectionThenMore(b, c, 1);
    LastSection(c, 2);
    assert [a] + ([b] + [c]) == [a, b, c];
  }

  /** Printing a version and reading it back is the identity. */
  lemma PrintedParses(v: Version)
    requires Printable(v)
    ensures Parsed(Printed(v)) == Some(v)
  {
    ThreeSections(Signed(v.major), Signed(v.minor), Signed(v.patch));
    StrtolOfSigned(v.major);
    StrtolOfSigned(v.minor);
    StrtolOfSigned(v.patch);
  }

  lemma EndsInDot(front: string, part: string)
    requires '.' !in part
    ensures part == [] <==> (front + "." + part)[|front + "." + part| - 1] == '.'
  {
    var cut := front + "." + part;
    assert part == [] ==> cut == front + ".";
    assert part != [] ==> cut[|cut| - 1] == part[|part| - 1];
  }

  /**
   * A version text cut short is still a version exactly when the cut is neither at the start nor right behind a dot.
   */
  lemma CutVersionParses(v: Version, n: nat)
    requires Printable(v) && n <= |Printed(v)|
    ensures var cut := Printed(v)[..n]; Parsed(cut).None? <==> cut == [] || cut[|cut| - 1] == '.'
  {
    CutParses(Signed(v.major), Signed(v.minor), Signed(v.patch), n);
  }

  lemma CutParses(a: string, b: string, c: string, n: nat)
    requires a != [] && b != [] && c != [] && '.' !in a && '.' !in b && '.' !in c
    requires n <= |a + "." + (b + "." + c)|
    ensures var cut := (a + "." + (b + "." + c))[..n]; Sections(cut, 0).None? <==> cut == [] || cut[|cut| - 1] == '.'
  {
    var cut := (a + "." + (b + "." + c))[..n];
    if n <= |a| {
      assert cut == a[..n];
      LastSection(cut, 0);
    } else if n - |a| - 1 <= |b| {
      var part := b[..n - |a| - 1];
      assert cut == a + "." + part;
      TwoSections(a, part);
      EndsInDot(a, part);
    } else {
      var part := c[..n - |a| - |b| - 2];
      assert cut == a + "." + (b + "." + part) == (a + "." + b) + "." + part;
      ThreeSections(a, b, part);
      EndsInDot(a + "." + b, part);
    }
  }
}
