// source/console.c, lines 284-357: the decoder's own expressions and its table of spellings.

/** The transliteration with its masks, shifts and spellings written out. */
module TransliterationLaws {
  import opened Bits
  import opened CStrings
  import opened AsciiSafe
  import opened Utf8

  // ---- The decoder ----

  predicate Continues(c: char) { And(c as int, 0xC0) == 0x80 }

  predicate LeadsTwo(c: char) { And(c as int, 0xE0) == 0xC0 }

  predicate LeadsThree(c: char) { And(c as int, 0xF0) == 0xE0 }

  predicate LeadsFour(c: char) { And(c as int, 0xF8) == 0xF0 }

  function SixBits(c: char): nat { And(c as int, 0x3F) }

  function TwoByteCode(c0: char, c1: char): nat {
    Or(Shl(And(c0 as int, 0x1F), 6), SixBits(c1))
  }

  function ThreeByteCode(c0: char, c1: char, c2: char): nat {
    Or(Or(Shl(And(c0 as int, 0x0F), 12), Shl(SixBits(c1), 6)), SixBits(c2))
  }

  function FourByteCode(c0: char, c1: char, c2: char, c3: char): nat {
    Or(Or(Or(Shl(And(c0 as int, 0x07), 18), Shl(SixBits(c1), 12)), Shl(SixBits(c2), 6)), SixBits(c3))
  }

  lemma ContinuesIs(c: char)
    requires IsByte(c)
    ensures Continues(c) <==> IsContinuation(c)
    ensures IsContinuation(c) ==> SixBits(c) == Low6(c) < 64
  {
    MasksAreFields(c as int, 0, 0);
  }

  lemma LeadIs(c: char)
    requires IsByte(c)
    ensures LeadsTwo(c) <==> 0xC0 <= c as int < 0xE0
    ensures LeadsThree(c) <==> 0xE0 <= c as int < 0xF0
    ensures LeadsFour(c) <==> 0xF0 <= c as int < 0xF8
  {
    MasksAreFields(c as int, 0, 0);
  }

  /** Six more bits behind the fields that are there. */
  lemma {:induction false} SixMore(hi: nat, lo: nat, k: nat)
    requires lo < 64
    ensures Or(Shl(hi, k + 6), Shl(lo, k)) == Shl(hi * 64 + lo, k)
  {
    if k == 0 {
      MasksAreFields(0, hi, lo);
    } else {
      SixMore(hi, lo, k - 1);
      OrEven(Shl(hi, k + 5), Shl(lo, k));
    }
  }

  lemma TwoFieldsJoined(x: nat, y: nat)
    requires y < 64
    ensures Or(Shl(x, 6), y) == x * 64 + y
  {
    SixMore(x, y, 0);
  }

  lemma ThreeFieldsJoined(x: nat, y: nat, z: nat)
    requires y < 64 && z < 64
    ensures Or(Or(Shl(x, 12), Shl(y, 6)), z) == (x * 64 + y) * 64 + z
  {
    SixMore(x, y, 6);
    TwoFieldsJoined(x * 64 + y, z);
  }

  lemma FourFieldsJoined(x: nat, y: nat, z: nat, w: nat)
    requires y < 64 && z < 64 && w < 64
    ensures Or(Or(Or(Shl(x, 18), Shl(y, 12)), Shl(z, 6)), w) == ((x * 64 + y) * 64 + z) * 64 + w
  {
    SixMore(x, y, 12);
    SixMore(x * 64 + y, z, 6);
    TwoFieldsJoined((x * 64 + y) * 64 + z, w);
  }

  lemma TwoByteCodeIs(c0: char, c1: char)
    requires 0xC0 <= c0 as int < 0xE0 && IsContinuation(c1)
    ensures TwoByteCode(c0, c1) == (c0 as int - 0xC0) * 64 + Low6(c1)
  {
    MasksAreFields(c0 as int, 0, 0);
    ContinuesIs(c1);
    TwoFieldsJoined(And(c0 as int, 0x1F), SixBits(c1));
  }

  lemma ThreeByteCodeIs(c0: char, c1: char, c2: char)
    requires 0xE0 <= c0 as int < 0xF0 && IsContinuation(c1) && IsContinuation(c2)
    ensures ThreeByteCode(c0, c1, c2) == ((c0 as int - 0xE0) * 64 + Low6(c1)) * 64 + Low6(c2)
  {
    MasksAreFields(c0 as int, 0, 0);
    ContinuesIs(c1);
    ContinuesIs(c2);
    ThreeFieldsJoined(And(c0 as int, 0x0F), SixBits(c1), SixBits(c2));
  }

  lemma FourByteCodeIs(c0: char, c1: char, c2: char, c3: char)
    requires 0xF0 <= c0 as int < 0xF8 && IsContinuation(c1) && IsContinuation(c2) && IsContinuation(c3)
    ensures FourByteCode(c0, c1, c2, c3)
              == (((c0 as int - 0xF0) * 64 + Low6(c1)) * 64 + Low6(c2)) * 64 + Low6(c3)
  {
    MasksAreFields(c0 as int, 0, 0);
    ContinuesIs(c1);
    ContinuesIs(c2);
    ContinuesIs(c3);
    FourFieldsJoined(And(c0 as int, 0x07), SixBits(c1), SixBits(c2), SixBits(c3));
  }

  /** A byte below 0x80 stands for itself. */
  lemma AsciiStays(c0: char, c1: char, c2: char, c3: char)
    requires '\0' < c0 < 0x80 as char
    ensures UnitOf(c0, c1, c2, c3) == Unit(1, [c0])
  {
  }

  lemma TwoBytes(c0: char, c1: char, c2: char, c3: char)
    requires IsByte(c0) && IsByte(c1) && LeadsTwo(c0) && Continues(c1)
    ensures c0 != '\0' && UnitOf(c0, c1, c2, c3) == Unit(2, Replacement(TwoByteCode(c0, c1)))
  {
    LeadIs(c0);
    ContinuesIs(c1);
    TwoByteCodeIs(c0, c1);
  }

  lemma ThreeBytes(c0: char, c1: char, c2: char, c3: char)
    requires IsByte(c0) && IsByte(c1) && IsByte(c2) && LeadsThree(c0) && Continues(c1) && Continues(c2)
    ensures c0 != '\0' && UnitOf(c0, c1, c2, c3) == Unit(3, Replacement(ThreeByteCode(c0, c1, c2)))
  {
    LeadIs(c0);
    ContinuesIs(c1);
    ContinuesIs(c2);
    ThreeByteCodeIs(c0, c1, c2);
  }

  lemma FourBytes(c0: char, c1: char, c2: char, c3: char)
    requires IsByte(c0) && IsByte(c1) && IsByte(c2) && IsByte(c3)
    requires LeadsFour(c0) && Continues(c1) && Continues(c2) && Continues(c3)
    ensures c0 != '\0' && UnitOf(c0, c1, c2, c3) == Unit(4, Replacement(FourByteCode(c0, c1, c2, c3)))
  {
    LeadIs(c0);
    ContinuesIs(c1);
    ContinuesIs(c2);
    ContinuesIs(c3);
    FourByteCodeIs(c0, c1, c2, c3);
  }

  /** Anything else is one byte, shown as a question mark. */
  lemma Malformed(c0: char, c1: char, c2: char, c3: char)
    requires 0x80 as char <= c0 && IsByte(c0) && IsByte(c1) && IsByte(c2) && IsByte(c3)
    requires !(LeadsTwo(c0) && Continues(c1)) && !(LeadsThree(c0) && Continues(c1) && Continues(c2))
    requires !(LeadsFour(c0) && Continues(c1) && Continues(c2) && Continues(c3))
    ensures UnitOf(c0, c1, c2, c3) == Unit(1, "?")
  {
    LeadIs(c0);
    ContinuesIs(c1);
    ContinuesIs(c2);
    ContinuesIs(c3);
  }

  // ---- The spellings ----

  /** The code points with a spelling of their own. */
  const SPELLED: seq<int> := [0xC4, 0xD6, 0xDC, 0xDF, 0xE4, 0xF6, 0xFC,
                              0x2013, 0x2014, 0x2018, 0x2019, 0x201C, 0x201D, 0x2026]

  lemma UmlautsAreSpelled()
    ensures Replacement(0xE4) == "ae" && Replacement(0xC4) == "Ae" && Replacement(0xF6) == "oe"
    ensures Replacement(0xD6) == "Oe" && Replacement(0xFC) == "ue" && Replacement(0xDC) == "Ue"
    ensures Replacement(0xDF) == "ss"
  {
  }

  lemma PunctuationIsSpelled()
    ensures Replacement(0x2013) == Replacement(0x2014) == "-" && Replacement(0x2018) == Replacement(0x2019) == "'"
    ensures Replacement(0x201C) == Replacement(0x201D) == "\"" && Replacement(0x2026) == "..."
  {
  }

  /** Every other code point is a question mark. */
  lemma OthersAreQuestionMarks(c: CodePoint)
    ensures c !in SPELLED ==> Replacement(c) == "?"
  {
    var s := SPELLED;
    assert s[0] == 0xC4 && s[1] == 0xD6 && s[2] == 0xDC && s[3] == 0xDF && s[4] == 0xE4 && s[5] == 0xF6;
    assert s[6] == 0xFC && s[7] == 0x2013 && s[8] == 0x2014 && s[9] == 0x2018 && s[10] == 0x2019;
    assert s[11] == 0x201C && s[12] == 0x201D && s[13] == 0x2026;
  }

  lemma EncodedPair(a: CodePoint, b: CodePoint)
    ensures AllEncoded([a, b]) == Encoded(a) + Encoded(b) && AllAscii([a, b]) == Ascii(a) + Ascii(b)
  {
    assert [a, b][1..] == [b] && [b][1..] == [];
    assert AllEncoded([b]) == Encoded(b) + [] == Encoded(b) && AllAscii([b]) == Ascii(b) + [] == Ascii(b);
  }

  /** Five bytes of UTF-8 at the end of any text. */
  lemma UmlautAndDots(t: string, i: nat)
    requires IsText(t) && i <= |t| && t[i..] == "\U{C3}\U{9C}\U{E2}\U{80}\U{A6}"
    ensures Transliterated(t, i) == "Ue..."
  {
    EncodedPair(0xDC, 0x2026);
    TwoCharacters();
    EncodedTransliterates(t, i, [0xDC, 0x2026]);
  }

  lemma TwoCharacters()
    ensures Encoded(0xDC) == "\U{C3}\U{9C}" && Encoded(0x2026) == "\U{E2}\U{80}\U{A6}"
    ensures Ascii(0xDC) == "Ue" && Ascii(0x2026) == "..."
  {
    assert Octets(0xDC) == [0xC3, 0x9C] && Octets(0x2026) == [0xE2, 0x80, 0xA6];
  }
}
