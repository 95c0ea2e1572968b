// RFC 3629, section 3, as the reference for the decoder in source/console.c, lines 289-318.

/** Encoding code points, and what transliterating encoded text gives. */
module Utf8 {
  import opened CStrings
  import opened AsciiSafe

  type CodePoint = c: int | 0 < c < 0x11_0000 witness 1

  /** The octets of one code point. */
  function Octets(c: CodePoint): (r: seq<int>)
    ensures 1 <= |r| <= 4 && forall i :: 0 <= i < |r| ==> 0 < r[i] < 256
  {
    if c < 0x80 then [c]
    else if c < 0x800 then [0xC0 + c / 64, 0x80 + c % 64]
    else if c < 0x1_0000 then [0xE0 + c / 64 / 64, 0x80 + c / 64 % 64, 0x80 + c % 64]
    else [0xF0 + c / 64 / 64 / 64, 0x80 + c / 64 / 64 % 64, 0x80 + c / 64 % 64, 0x80 + c % 64]
  }

  function Encoded(c: CodePoint): (r: string)
    ensures |r| == |Octets(c)| && IsText(r)
    ensures forall i :: 0 <= i < |r| ==> r[i] == Octets(c)[i] as char
  {
    seq(|Octets(c)|, i requires 0 <= i < |Octets(c)| => Octets(c)[i] as char)
  }

  function AllEncoded(cs: seq<CodePoint>): (r: string)
    ensures IsText(r)
  {
    if cs == [] then [] else Encoded(cs[0]) + AllEncoded(cs[1..])
  }

  /** What stands for a code point in ASCII. */
  function Ascii(c: CodePoint): string {
    if c < 0x80 then [c as char] else Replacement(c)
  }

  function AllAscii(cs: seq<CodePoint>): string {
    if cs == [] then [] else Ascii(cs[0]) + AllAscii(cs[1..])
  }

  lemma TwoOctets(c: CodePoint, c0: char, c1: char, c2: char, c3: char)
    requires 0x80 <= c < 0x800 && c0 as int == 0xC0 + c / 64 && c1 as int == 0x80 + c % 64
    ensures UnitOf(c0, c1, c2, c3) == Unit(2, Ascii(c))
  {
    assert (c0 as int - 0xC0) * 64 + Low6(c1) == c;
  }

  lemma ThreeOctets(c: CodePoint, c0: char, c1: char, c2: char, c3: char)
    requires 0x800 <= c < 0x1_0000
    requires c0 as int == 0xE0 + c / 64 / 64 && c1 as int == 0x80 + c / 64 % 64 && c2 as int == 0x80 + c % 64
    ensures UnitOf(c0, c1, c2, c3) == Unit(3, Ascii(c))
  {
    assert (c0 as int - 0xE0) * 64 + Low6(c1) == c / 64;
  }

  lemma FourOctets(c: CodePoint, c0: char, c1: char, c2: char, c3: char)
    requires 0x1_0000 <= c && c0 as int == 0xF0 + c / 64 / 64 / 64 && c1 as int == 0x80 + c / 64 / 64 % 64
    requires c2 as int == 0x80 + c / 64 % 64 && c3 as int == 0x80 + c % 64
    ensures UnitOf(c0, c1, c2, c3) == Unit(4, Ascii(c))
  {
    assert (c0 as int - 0xF0) * 64 + Low6(c1) == c / 64 / 64;
  }

  /** The decoder takes an encoded code point for one unit, wherever it stands and whatever follows it. */
  lemma UnitOfEncoded(t: string, i: nat, c: CodePoint)
    requires IsText(t) && i + |Encoded(c)| <= |t| && t[i..i + |Encoded(c)|] == Encoded(c)
    ensures UnitAt(t, i) == Unit(|Encoded(c)|, Ascii(c))
  {
    OctetsAt(t, i, c);
    var c0, c1, c2, c3 := At(t, i), At(t, i + 1), At(t, i + 2), At(t, i + 3);
    if 0x80 <= c < 0x800 {
      TwoOctets(c, c0, c1, c2, c3);
    } else if 0x800 <= c < 0x1_0000 {
      ThreeOctets(c, c0, c1, c2, c3);
    } else if 0x1_0000 <= c {
      FourOctets(c, c0, c1, c2, c3);
    }
  }

  lemma OctetsAt(t: string, i: nat, c: CodePoint)
    requires i + |Encoded(c)| <= |t| && t[i..i + |Encoded(c)|] == Encoded(c)
    ensures At(t, i) as int == Octets(c)[0]
    ensures |Octets(c)| > 1 ==> At(t, i + 1) as int == Octets(c)[1]
    ensures |Octets(c)| > 2 ==> At(t, i + 2) as int == Octets(c)[2]
    ensures |Octets(c)| > 3 ==> At(t, i + 3) as int == Octets(c)[3]
  {
    forall k | 0 <= k < |Octets(c)| ensures At(t, i + k) as int == Octets(c)[k] {
      assert t[i + k] == t[i..i + |Encoded(c)|][k] == Encoded(c)[k];
    }
    assert At(t, i + 0) as int == Octets(c)[0];
  }

  lemma PartsOfTail(t: string, i: nat, a: string, b: string)
    requires i <= |t| && t[i..] == a + b
    ensures i + |a| <= |t| && t[i..i + |a|] == a && t[i + |a|..] == b
  {
    assert |t[i..]| == |a| + |b|;
    assert t[i..i + |a|] == t[i..][..|a|] && t[i + |a|..] == t[i..][|a|..];
  }

  /** The first code point of an encoded tail is the first unit of its transliteration. */
  lemma FirstUnit(t: string, i: nat, c: CodePoint, tail: string) returns (next: nat)
    requires IsText(t) && i <= |t| && t[i..] == Encoded(c) + tail
    ensures i < next <= |t| && t[next..] == tail
    ensures Transliterated(t, i) == Ascii(c) + Transliterated(t, next)
  {
    PartsOfTail(t, i, Encoded(c), tail);
    UnitOfEncoded(t, i, c);
    next := i + |Encoded(c)|;
    OneUnit(t, i, Unit(|Encoded(c)|, Ascii(c)));
  }

  lemma OneUnit(t: string, i: nat, u: Unit)
    requires IsText(t) && i < |t| && UnitAt(t, i) == u
    ensures Transliterated(t, i) == u.repl + Transliterated(t, i + u.consumed)
  {
  }

  /** Encoded text, at the end of any text, is transliterated code point by code point. */
  lemma {:induction false} EncodedTransliterates(t: string, i: nat, cs: seq<CodePoint>)
    requires IsText(t) && i <= |t| && t[i..] == AllEncoded(cs)
    ensures Transliterated(t, i) == AllAscii(cs)
    decreases cs
  {
    if cs == [] {
      assert |t[i..]| == 0;
    } else {
      var next := FirstUnit(t, i, cs[0], AllEncoded(cs[1..]));
      EncodedTransliterates(t, next, cs[1..]);
    }
  }
}
