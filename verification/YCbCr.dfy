// source/pngu/pngu.c, lines 799-816: two RGB8 pixels as one YCbYCr word.

module YCbCr {
  import opened Bits

  function Luma(r: byte, g: byte, b: byte): int { (299 * r + 587 * g + 114 * b) / 1000 }

  function BlueChroma(r: byte, g: byte, b: byte): int { (-16874 * r - 33126 * g + 50000 * b + 12800000) / 100000 }

  function RedChroma(r: byte, g: byte, b: byte): int { (50000 * r - 41869 * g - 8131 * b + 12800000) / 100000 }

  /** All dividends are at least zero, so C's division agrees, and no field is wider than a byte. */
  lemma FieldsAreBytes(r: byte, g: byte, b: byte)
    ensures 0 <= Luma(r, g, b) < 256 && 0 <= BlueChroma(r, g, b) < 256 && 0 <= RedChroma(r, g, b) < 256
    ensures -16874 * r - 33126 * g + 50000 * b + 12800000 > 0 && 50000 * r - 41869 * g - 8131 * b + 12800000 > 0
  {
  }

  datatype Fields = Fields(y1: byte, cb: byte, y2: byte, cr: byte)

  /** The chroma of the pair is the mean of both pixels. */
  function FieldsOf(r1: byte, g1: byte, b1: byte, r2: byte, g2: byte, b2: byte): Fields {
    FieldsAreBytes(r1, g1, b1);
    FieldsAreBytes(r2, g2, b2);
    Fields(Luma(r1, g1, b1), (BlueChroma(r1, g1, b1) + BlueChroma(r2, g2, b2)) / 2,
           Luma(r2, g2, b2), (RedChroma(r1, g1, b1) + RedChroma(r2, g2, b2)) / 2)
  }

  /** `PNGU_RGB8_TO_YCbYCr` */
  function ToYCbYCr(r1: byte, g1: byte, b1: byte, r2: byte, g2: byte, b2: byte): nat {
    Ored(FieldsOf(r1, g1, b1, r2, g2, b2))
  }

  lemma FieldBelow(field: byte, k: nat)
    ensures Shl(field, k) < Pow2(k + 8) && Pow2(k + 8) == 256 * Pow2(k)
  {
    Powers();
    Pow2Sum(8, k);
    ShlIsTimes(field, k);
    TimesMonotone(field + 1, 256, Pow2(k));
    assert (field + 1) * Pow2(k) == field * Pow2(k) + Pow2(k);
  }

  lemma OrField(high: nat, field: byte, k: nat)
    ensures Or(Shl(high, k + 8), Shl(field, k)) == Shl(256 * high + field, k)
  {
    FieldBelow(field, k);
    OrFields(high, Shl(field, k), k + 8);
    SumOfFields(high, field, k);
  }

  lemma {:induction false} SumOfFields(high: nat, field: nat, k: nat)
    ensures Shl(high, k + 8) + Shl(field, k) == Shl(256 * high + field, k)
  {
    if k == 0 {
      ShlIsTimes(high, 8);
      Powers();
    } else {
      SumOfFields(high, field, k - 1);
    }
  }

  function Ored(f: Fields): nat {
    Or(Or(Or(Shl(f.y1, 24), Shl(f.cb, 16)), Shl(f.y2, 8)), f.cr)
  }

  /** The four fields do not touch each other: each byte of the word is one of them. */
  lemma WordHoldsFields(f: Fields)
    ensures Ored(f) == ((f.y1 * 256 + f.cb) * 256 + f.y2) * 256 + f.cr
  {
    OrField(f.y1, f.cb, 16);
    OrField(256 * f.y1 + f.cb, f.y2, 8);
    OrField(256 * (256 * f.y1 + f.cb) + f.y2, f.cr, 0);
  }

  /** The framebuffer word: each pixel's luma in a byte of its own, and between them the chroma both share. */
  lemma WordOfPixels(r1: byte, g1: byte, b1: byte, r2: byte, g2: byte, b2: byte)
    ensures var w := ToYCbYCr(r1, g1, b1, r2, g2, b2);
            && w / 0x100_0000 == Luma(r1, g1, b1) && w / 0x100 % 0x100 == Luma(r2, g2, b2)
            && w / 0x1_0000 % 0x100 == (BlueChroma(r1, g1, b1) + BlueChroma(r2, g2, b2)) / 2
            && w % 0x100 == (RedChroma(r1, g1, b1) + RedChroma(r2, g2, b2)) / 2
  {
    var w := WordBytes(FieldsOf(r1, g1, b1, r2, g2, b2));
  }

  lemma WordBytes(f: Fields) returns (w: nat)
    ensures w == Ored(f)
    ensures w / 0x100_0000 == f.y1 && w / 0x1_0000 % 0x100 == f.cb && w / 0x100 % 0x100 == f.y2 && w % 0x100 == f.cr
  {
    w := ((f.y1 * 256 + f.cb) * 256 + f.y2) * 256 + f.cr;
    WordHoldsFields(f);
    BytesOfWord(f.y1, f.cb, f.y2, f.cr);
  }

  lemma BytesOfWord(a: byte, b: byte, c: byte, d: byte)
    ensures var w := ((a * 256 + b) * 256 + c) * 256 + d;
            w / 0x100_0000 == a && w / 0x1_0000 % 0x100 == b && w / 0x100 % 0x100 == c && w % 0x100 == d
  {
  }

  /** Grey pixels keep their value and have neutral chroma. */
  lemma GreyIsNeutral(v1: byte, v2: byte)
    ensures FieldsOf(v1, v1, v1, v2, v2, v2) == Fields(v1, 128, v2, 128)
  {
  }
}
