// source/versionutils.c: the order of versions and the texts they are read from, with the parts written out.

/** Versions as numbers: what counts as older, how digits count, and how many parts a text may have. */
module VersionLaws {
  import opened CStrings
  import opened Versions
  import opened VersionsFile

  // ---- Order ----

  /** The parts as digits of one number in base 2^32. */
  function Weight(v: Version): int {
    (v.major * 0x1_0000_0000 + v.minor) * 0x1_0000_0000 + v.patch
  }

  /** Among versions of 32-bit parts the older one is the smaller number: major first, then minor, then patch. */
  lemma OlderIsSmaller(a: Version, b: Version)
    requires -0x8000_0000 <= a.minor < 0x8000_0000 && -0x8000_0000 <= a.patch < 0x8000_0000
    requires -0x8000_0000 <= b.minor < 0x8000_0000 && -0x8000_0000 <= b.patch < 0x8000_0000
    ensures IsOlder(a, b) <==> Weight(a) < Weight(b)
  {
  }

  /** Of a list exactly the entries with a greater number are selected. */
  lemma SelectedIsGreater(entries: seq<Entry>, current: Version, e: Entry)
    requires Printable(current) && forall x :: x in entries ==> Printable(x.version)
    ensures e in NewerOf(entries, current) <==> e in entries && Weight(current) < Weight(e.version)
  {
    NewerOfMembers(entries, current);
    if e in entries {
      OlderIsSmaller(current, e.version);
    }
  }

  /** Any 32-bit numbers make a printable version, and no others do. */
  lemma PrintableIs32Bit(v: Version)
    ensures Printable(v) <==>
              && -2147483648 <= v.major <= 2147483647 && -2147483648 <= v.minor <= 2147483647
              && -2147483648 <= v.patch <= 2147483647
  {
  }

  // ---- Digits ----

  const DIGITS := "0123456789"

  /** Decimal notation, digit by digit. */
  lemma DecimalDigits(n: nat, d: nat)
    requires d < 10
    ensures Decimal(d) == [DIGITS[d]]
    ensures n > 0 ==> Decimal(10 * n + d) == Decimal(n) + [DIGITS[d]]
  {
    assert DIGITS[d] as int == '0' as int + d;
    assert (10 * n + d) / 10 == n && (10 * n + d) % 10 == d;
  }

  lemma DigitsAreDigits(c: char)
    ensures IsDigit(c) <==> c in DIGITS
  {
    if IsDigit(c) {
      assert DIGITS[c as int - '0' as int] == c;
    }
  }

  lemma {:induction false} DigitsStop(s: string, rest: string, acc: nat)
    requires forall i :: 0 <= i < |s| ==> IsDigit(s[i])
    requires rest == [] || !IsDigit(rest[0])
    ensures Digits(s + rest, acc) == Digits(s, acc)
  {
    if s == [] {
      assert s + rest == rest;
    } else {
      assert (s + rest)[1..] == s[1..] + rest;
      DigitsStop(s[1..], rest, acc * 10 + DigitValue(s[0]));
    }
  }

  // ---- strtol ----

  function Clamped(n: int): int {
    if n < -2147483648 then -2147483648 else if n > 2147483647 then 2147483647 else n
  }

  /** A number with or without a sign counts up to its first other character, clamped to 32 bits. */
  lemma NumberIsRead(n: nat, rest: string)
    requires rest == [] || rest[0] !in DIGITS
    ensures Strtol(Decimal(n) + rest) == Clamped(n)
    ensures Strtol("-" + Decimal(n) + rest) == Clamped(-(n as int))
    ensures Strtol("+" + Decimal(n) + rest) == Clamped(n)
  {
    if rest != [] {
      DigitsAreDigits(rest[0]);
    }
    var d := Decimal(n);
    DecimalReadsBack(n);
    DigitsStop(d, rest, 0);
    assert IsDigit(d[0]) && (d + rest)[0] == d[0];
    assert ("-" + d + rest)[1..] == d + rest && ("+" + d + rest)[1..] == d + rest;
  }

  /** Blanks in front do not count. */
  lemma BlankIsSkipped(c: char, s: string)
    requires c == ' ' || c == '\t' || c == '\n' || c == '\U{0B}' || c == '\U{0C}' || c == '\r'
    ensures Strtol([c] + s) == Strtol(s)
  {
    assert ([c] + s)[1..] == s;
  }

  /** Text without a number is zero. */
  lemma NoNumberIsZero(s: string)
    requires s == [] || s[0] !in " \t\n\U{0B}\U{0C}\r+-0123456789"
    ensures Strtol(s) == 0
  {
    if s != [] {
      BlanksAre(s[0]);
      DigitsAreDigits(s[0]);
    }
  }

  lemma BlanksAre(c: char)
    ensures IsSpace(c) <==> c == ' ' || c == '\t' || c == '\n' || c == '\U{0B}' || c == '\U{0C}' || c == '\r'
    ensures IsSpace(c) || c == '+' || c == '-' || c in DIGITS ==> c in " \t\n\U{0B}\U{0C}\r+-0123456789"
  {
    var all := " \t\n\U{0B}\U{0C}\r+-0123456789";
    assert all[0] == ' ' && all[1] == '\t' && all[2] == '\n' && all[3] == '\U{0B}' && all[4] == '\U{0C}';
    assert all[5] == '\r' && all[6] == '+' && all[7] == '-' && all[8..] == DIGITS;
    if c in DIGITS {
      assert c in all[8..];
    }
  }

  // ---- Parts ----

  /** One, two or three parts; missing ones are zero, and what follows a third part is not looked at. */
  lemma PartsAre(a: string, b: string, c: string, more: string)
    requires a != [] && b != [] && c != [] && '.' !in a && '.' !in b && '.' !in c
    ensures Parsed(a) == Some(Version(Strtol(a), 0, 0))
    ensures Parsed(a + "." + b) == Some(Version(Strtol(a), Strtol(b), 0))
    ensures Parsed(a + "." + (b + "." + c)) == Some(Version(Strtol(a), Strtol(b), Strtol(c)))
    ensures Parsed(a + "." + (b + "." + (c + "." + more))) == Some(Version(Strtol(a), Strtol(b), Strtol(c)))
  {
    LastSection(a, 0);
    SectionThenMore(a, b, 0);
    LastSection(b, 1);
    SectionThenMore(a, b + "." + c, 0);
    SectionThenMore(b, c, 1);
    LastSection(c, 2);
    SectionThenMore(a, b + "." + (c + "." + more), 0);
    SectionThenMore(b, c + "." + more, 1);
    ThirdSection(c, more);
  }

  lemma ThirdSection(c: string, more: string)
    requires c != [] && '.' !in c
    ensures Sections(c + "." + more, 2) == Some([c])
  {
    var s := c + "." + more;
    assert s[|c|] == '.' && s[..|c|] == c;
    SectionEndIs(s, |c|);
  }

  /** Nothing, or nothing in front of a dot, is no version. */
  lemma EmptyPartFails(a: string, b: string, more: string)
    requires a != [] && b != [] && '.' !in a && '.' !in b
    ensures Parsed("") == None && Parsed("." + more) == None
    ensures Parsed(a + ".") == None && Parsed(a + "." + ("." + more)) == None
    ensures Parsed(a + "." + (b + ".")) == None && Parsed(a + "." + (b + "." + ("." + more))) == None
  {
    assert Sections("", 1) == None && Sections("", 2) == None;
    assert ("." + more)[0] == '.';
    assert Sections("." + more, 1) == None && Sections("." + more, 2) == None;
    SectionThenMore(a, "", 0);
    assert a + "." + "" == a + "." && b + "." + "" == b + ".";
    SectionThenMore(a, "." + more, 0);
    SectionThenMore(b, "", 1);
    SectionThenMore(a, b + ".", 0);
    SectionThenMore(b, "." + more, 1);
    SectionThenMore(a, b + "." + ("." + more), 0);
  }

  // ---- Printing ----

  /** A version is printed as its three numbers with dots between them. */
  lemma PrintedIs(a: nat, b: nat, c: nat)
    ensures Printed(Version(a, b, c)) == Decimal(a) + "." + Decimal(b) + "." + Decimal(c)
    ensures a > 0 ==> Printed(Version(-(a as int), b, c)) == "-" + Decimal(a) + "." + Decimal(b) + "." + Decimal(c)
  {
    Dotted(Decimal(a), Decimal(b), Decimal(c));
    Dotted("-" + Decimal(a), Decimal(b), Decimal(c));
  }

  lemma Dotted(a: string, b: string, c: string)
    ensures a + "." + (b + "." + c) == a + "." + b + "." + c
  {
  }

  // ---- Lines ----

  /** A line is a version, a space and a text; what follows a second space is not looked at. */
  lemma LineIsRead(version: string, text: string, more: string)
    requires ' ' !in version && ' ' !in text && text != []
    ensures LineEntry(version + " " + text)
              == if Parsed(version).None? then None else Some(Entry(Parsed(version).value, text))
    ensures LineEntry(version + " " + (text + " " + more)) == LineEntry(version + " " + text)
  {
    SplitFirst(version, text, ' ');
    SplitFirst(version, text + " " + more, ' ');
    SplitFirst(text, more, ' ');
    FirstIndexIs(text, ' ', |text|);
  }
}
