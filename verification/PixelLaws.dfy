// source/pngu/pngu.h, lines 73-79, and pngu.c, lines 799-816: the pixel conversions in arithmetic, and colours.

/** The two texture formats as quotients of the components, and the framebuffer's primary colours. */
module PixelLaws {
  import opened Bits
  import opened Pixels
  import opened YCbCr

  // The sums below stay under 2^16, so no field reaches into another.

  /** Five, six and five bits, red highest. */
  lemma Rgb565Is(r: bv8, g: bv8, b: bv8)
    ensures ToRgb565(r, g, b) == ((r as bv16) / 8) * 2048 + ((g as bv16) / 4) * 32 + (b as bv16) / 8
  {
  }

  /** From alpha 224 on: the top bit, and five bits a component. */
  lemma Rgb5A3OpaqueIs(r: bv8, g: bv8, b: bv8, a: bv8)
    requires a >= 224
    ensures ToRgb5A3(r, g, b, a)
              == 32768 + ((r as bv16) / 8) * 1024 + ((g as bv16) / 8) * 32 + (b as bv16) / 8
  {
  }

  /** Below: three bits of alpha, and four bits a component. */
  lemma Rgb5A3TranslucentIs(r: bv8, g: bv8, b: bv8, a: bv8)
    requires a < 224
    ensures ToRgb5A3(r, g, b, a)
              == ((a as bv16) / 32) * 4096 + ((r as bv16) / 16) * 256 + ((g as bv16) / 16) * 16 + (b as bv16) / 16
  {
  }

  /** Alpha or green in the high byte. */
  lemma PairIs(hi: bv8, lo: bv8)
    ensures Pair(hi, lo) == (hi as bv16) * 256 + lo as bv16
  {
  }

  /** A stored word is its four texel halves, the first one in the highest bytes. */
  lemma LanesMakeWord(w: bv64)
    ensures w == ((Lane(w, 0) as bv64) << 48) | ((Lane(w, 1) as bv64) << 32) | ((Lane(w, 2) as bv64) << 16)
                 | (Lane(w, 3) as bv64)
  {
  }

  /** Eight loaded bytes are four pairs, in order. */
  lemma LoadedPairs(b0: bv8, b1: bv8, b2: bv8, b3: bv8, b4: bv8, b5: bv8, b6: bv8, b7: bv8)
    ensures var w := Load64(b0, b1, b2, b3, b4, b5, b6, b7);
            && Lane(w, 0) == Pair(b0, b1) && Lane(w, 1) == Pair(b2, b3)
            && Lane(w, 2) == Pair(b4, b5) && Lane(w, 3) == Pair(b6, b7)
  {
  }

  /** Red, green and blue: a wrong weight, or two exchanged ones, would show in one of them. */
  lemma PrimaryColours()
    ensures FieldsOf(255, 0, 0, 255, 0, 0) == Fields(76, 84, 76, 255)
    ensures FieldsOf(0, 255, 0, 0, 255, 0) == Fields(149, 43, 149, 21)
    ensures FieldsOf(0, 0, 255, 0, 0, 255) == Fields(29, 255, 29, 107)
  {
  }

  lemma RedAndBlueFields()
    ensures FieldsOf(255, 0, 0, 0, 0, 255) == Fields(76, 169, 29, 181)
  {
  }

  lemma WordOfFields(f: Fields)
    requires f.y1 == 76 && f.cb == 169 && f.y2 == 29 && f.cr == 181
    ensures Ored(f) == 0x4CA9_1DB5
  {
    WordHoldsFields(f);
  }

  /** A red pixel beside a blue one: each luma in its place, and the mean of the two chromas. */
  lemma RedBesideBlue()
    ensures ToYCbYCr(255, 0, 0, 0, 0, 255) == 0x4CA9_1DB5
  {
    RedAndBlueFields();
    WordOfFields(FieldsOf(255, 0, 0, 0, 0, 255));
  }
}
