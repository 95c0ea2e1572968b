// source/pngu/pngu.h, lines 73-79, and the packed expressions of source/pngu/pngu.c: four pixels into 64-bit words.

/** Per-pixel conversions, the packed expressions that convert four pixels at once, and that both agree. */
module Pixels {

  /** `PNGU_RGB8_TO_RGB565` */
  function ToRgb565(r: bv8, g: bv8, b: bv8): bv16 {
    ((r as bv16 & 0xF8) << 8) | ((g as bv16 & 0xFC) << 3) | ((b as bv16) >> 3)
  }

  /** `PNGU_RGB8_TO_RGB5A3` */
  function ToRgb5A3(r: bv8, g: bv8, b: bv8, a: bv8): bv16 {
    if a & 0xE0 == 0xE0 then
      0x8000 | ((r as bv16 & 0xF8) << 7) | ((g as bv16 & 0xF8) << 2) | ((b as bv16) >> 3)
    else
      ((a as bv16 & 0xE0) << 7) | ((r as bv16 & 0xF0) << 4) | (g as bv16 & 0xF0) | ((b as bv16 & 0xF0) >> 4)
  }

  /** Two bytes as one texel half. */
  function Pair(hi: bv8, lo: bv8): bv16 {
    ((hi as bv16) << 8) | (lo as bv16)
  }

  /** A big-endian 64-bit load. */
  function Load64(b0: bv8, b1: bv8, b2: bv8, b3: bv8, b4: bv8, b5: bv8, b6: bv8, b7: bv8): bv64 {
    ((b0 as bv64) << 56) | ((b1 as bv64) << 48) | ((b2 as bv64) << 40) | ((b3 as bv64) << 32)
    | ((b4 as bv64) << 24) | ((b5 as bv64) << 16) | ((b6 as bv64) << 8) | (b7 as bv64)
  }

  /** A big-endian 32-bit load, widened. */
  function Load32(b0: bv8, b1: bv8, b2: bv8, b3: bv8): bv64 {
    ((b0 as bv64) << 24) | ((b1 as bv64) << 16) | ((b2 as bv64) << 8) | (b3 as bv64)
  }

  /** The 16-bit texel at place `k` of a stored big-endian word. */
  function Lane(w: bv64, k: nat): bv16
    requires k < 4
  {
    if k == 0 then ((w >> 48) & 0xFFFF) as bv16
    else if k == 1 then ((w >> 32) & 0xFFFF) as bv16
    else if k == 2 then ((w >> 16) & 0xFFFF) as bv16
    else (w & 0xFFFF) as bv16
  }

  // ---- RGB565 ----

  function Pack565(field64: bv64, field32: bv64): bv64 {
    (((field64 & 0xF800000000000000) | ((field64 & 0xFC000000000000) << 3) | ((field64 & 0xF80000000000) << 5))
     | (((field64 & 0xF800000000) << 8) | ((field64 & 0xFC000000) << 11) | ((field64 & 0xF80000) << 13))
     | (((field64 & 0xF800) << 16) | ((field64 & 0xFC) << 19) | ((field32 & 0xF8000000) >> 11))
     | (((field32 & 0xF80000) >> 8) | ((field32 & 0xFC00) >> 5) | ((field32 & 0xF8) >> 3)))
  }

  lemma Pack565Lanes(r0: bv8, g0: bv8, b0: bv8, r1: bv8, g1: bv8, b1: bv8,
                     r2: bv8, g2: bv8, b2: bv8, r3: bv8, g3: bv8, b3: bv8)
    ensures var w := Pack565(Load64(r0, g0, b0, r1, g1, b1, r2, g2), Load32(b2, r3, g3, b3));
            && Lane(w, 0) == ToRgb565(r0, g0, b0) && Lane(w, 1) == ToRgb565(r1, g1, b1)
            && Lane(w, 2) == ToRgb565(r2, g2, b2) && Lane(w, 3) == ToRgb565(r3, g3, b3)
  {
  }

  // ---- RGB5A3 ----

  /** Without an alpha channel, opaque. */
  function PackOpaque(alphaMask: bv64, field64: bv64, field32: bv64): bv64 {
    alphaMask | ((field64 & 0xF800000000000000) >> 1) | ((field64 & 0xF8000000000000) << 2)
    | ((field64 & 0xF80000000000) << 5) | ((field64 & 0xF800000000) << 7) | ((field64 & 0xF8000000) << 10)
    | ((field64 & 0xF80000) << 13) | ((field64 & 0xF800) << 15) | ((field64 & 0xF8) << 18)
    | ((field32 & 0xF8000000) >> 11) | ((field32 & 0xF80000) >> 9) | ((field32 & 0xF800) >> 6) | ((field32 & 0xF8) >> 3)
  }

  /** Without an alpha channel, translucent. */
  function PackTranslucent(alphaMask: bv64, field64: bv64, field32: bv64): bv64 {
    alphaMask | ((field64 & 0xF000000000000000) >> 4) | (field64 & 0xF0000000000000) | ((field64 & 0xF00000000000) << 4)
    | ((field64 & 0xF000000000) << 4) | ((field64 & 0xF0000000) << 8) | ((field64 & 0xF00000) << 12)
    | ((field64 & 0xF000) << 12) | ((field64 & 0xF0) << 16) | ((field32 & 0xF0000000) >> 12)
    | ((field32 & 0xF00000) >> 12) | ((field32 & 0xF000) >> 8) | ((field32 & 0xF0) >> 4)
  }

  const OPAQUE_MASK: bv64 := 0x8000800080008000

  /** The default alpha in every lane; `alpha` is already reduced to its top three bits. */
  function AlphaMask(alpha: bv8): bv64 {
    ((alpha as bv64) << 56) | ((alpha as bv64) << 40) | ((alpha as bv64) << 24) | ((alpha as bv64) << 8)
  }

  /** One step per pixel: opaque pixels in RGB555, the others in ARGB3444. */
  function PackFirst(fieldA: bv64): bv64 {
    if fieldA & 0xE000000000 == 0xE000000000 then
      0x8000000000000000 | ((fieldA & 0xF800000000000000) >> 1) | ((fieldA & 0xF8000000000000) << 2)
      | ((fieldA & 0xF80000000000) << 5)
    else
      ((fieldA & 0xE000000000) << 23) | ((fieldA & 0xF000000000000000) >> 4) | (fieldA & 0xF0000000000000)
      | ((fieldA & 0xF00000000000) << 4)
  }

  function PackSecond(tmp: bv64, fieldA: bv64): bv64 {
    if fieldA & 0xE0 == 0xE0 then
      tmp | 0x800000000000 | ((fieldA & 0xF8000000) << 15) | ((fieldA & 0xF80000) << 18) | ((fieldA & 0xF800) << 21)
    else
      tmp | ((fieldA & 0xE0) << 39) | ((fieldA & 0xF0000000) << 12) | ((fieldA & 0xF00000) << 16)
      | ((fieldA & 0xF000) << 20)
  }

  function PackThird(tmp: bv64, fieldB: bv64): bv64 {
    if fieldB & 0xE000000000 == 0xE000000000 then
      tmp | 0x80000000 | ((fieldB & 0xF800000000000000) >> 33) | ((fieldB & 0xF8000000000000) >> 30)
      | ((fieldB & 0xF80000000000) >> 27)
    else
      tmp | ((fieldB & 0xE000000000) >> 9) | ((fieldB & 0xF000000000000000) >> 36)
      | ((fieldB & 0xF0000000000000) >> 32) | ((fieldB & 0xF00000000000) >> 28)
  }

  function PackFourth(tmp: bv64, fieldB: bv64): bv64 {
    if fieldB & 0xE0 == 0xE0 then
      tmp | 0x8000 | ((fieldB & 0xF8000000) >> 17) | ((fieldB & 0xF80000) >> 14) | ((fieldB & 0xF800) >> 11)
    else
      tmp | ((fieldB & 0xE0) << 7) | ((fieldB & 0xF0000000) >> 20) | ((fieldB & 0xF00000) >> 16)
      | ((fieldB & 0xF000) >> 12)
  }

  function PackAlpha(fieldA: bv64, fieldB: bv64): bv64 {
    PackFourth(PackThird(PackSecond(PackFirst(fieldA), fieldA), fieldB), fieldB)
  }

  lemma PackOpaqueLanes(a: bv8, r0: bv8, g0: bv8, b0: bv8, r1: bv8, g1: bv8, b1: bv8,
                        r2: bv8, g2: bv8, b2: bv8, r3: bv8, g3: bv8, b3: bv8)
    requires a >> 5 == 7
    ensures var w := PackOpaque(OPAQUE_MASK, Load64(r0, g0, b0, r1, g1, b1, r2, g2), Load32(b2, r3, g3, b3));
            && Lane(w, 0) == ToRgb5A3(r0, g0, b0, a) && Lane(w, 1) == ToRgb5A3(r1, g1, b1, a)
            && Lane(w, 2) == ToRgb5A3(r2, g2, b2, a) && Lane(w, 3) == ToRgb5A3(r3, g3, b3, a)
  {
  }

  lemma PackTranslucentLanes(a: bv8, r0: bv8, g0: bv8, b0: bv8, r1: bv8, g1: bv8, b1: bv8,
                             r2: bv8, g2: bv8, b2: bv8, r3: bv8, g3: bv8, b3: bv8)
    requires a >> 5 != 7
    ensures var w := PackTranslucent(AlphaMask((a >> 5) << 4), Load64(r0, g0, b0, r1, g1, b1, r2, g2),
                                     Load32(b2, r3, g3, b3));
            && Lane(w, 0) == ToRgb5A3(r0, g0, b0, a) && Lane(w, 1) == ToRgb5A3(r1, g1, b1, a)
            && Lane(w, 2) == ToRgb5A3(r2, g2, b2, a) && Lane(w, 3) == ToRgb5A3(r3, g3, b3, a)
  {
  }

  lemma FirstLane(r0: bv8, g0: bv8, b0: bv8, a0: bv8, r1: bv8, g1: bv8, b1: bv8, a1: bv8)
    ensures var w := PackFirst(Load64(r0, g0, b0, a0, r1, g1, b1, a1));
            Lane(w, 0) == ToRgb5A3(r0, g0, b0, a0) && w & 0xFFFFFFFFFFFF == 0
  {
  }

  lemma SecondLane(tmp: bv64, r0: bv8, g0: bv8, b0: bv8, a0: bv8, r1: bv8, g1: bv8, b1: bv8, a1: bv8)
    requires tmp & 0xFFFFFFFFFFFF == 0
    ensures var w := PackSecond(tmp, Load64(r0, g0, b0, a0, r1, g1, b1, a1));
            Lane(w, 1) == ToRgb5A3(r1, g1, b1, a1) && Lane(w, 0) == Lane(tmp, 0) && w & 0xFFFFFFFF == 0
  {
  }

  lemma ThirdLane(tmp: bv64, r2: bv8, g2: bv8, b2: bv8, a2: bv8, r3: bv8, g3: bv8, b3: bv8, a3: bv8)
    requires tmp & 0xFFFFFFFF == 0
    ensures var w := PackThird(tmp, Load64(r2, g2, b2, a2, r3, g3, b3, a3));
            && Lane(w, 2) == ToRgb5A3(r2, g2, b2, a2) && Lane(w, 0) == Lane(tmp, 0) && Lane(w, 1) == Lane(tmp, 1)
            && w & 0xFFFF == 0
  {
  }

  lemma FourthLane(tmp: bv64, r2: bv8, g2: bv8, b2: bv8, a2: bv8, r3: bv8, g3: bv8, b3: bv8, a3: bv8)
    requires tmp & 0xFFFF == 0
    ensures var w := PackFourth(tmp, Load64(r2, g2, b2, a2, r3, g3, b3, a3));
            && Lane(w, 3) == ToRgb5A3(r3, g3, b3, a3)
            && Lane(w, 0) == Lane(tmp, 0) && Lane(w, 1) == Lane(tmp, 1) && Lane(w, 2) == Lane(tmp, 2)
  {
  }

  /** Each step writes its own lane and leaves those before it as they were. */
  lemma PackAlphaLanes(r0: bv8, g0: bv8, b0: bv8, a0: bv8, r1: bv8, g1: bv8, b1: bv8, a1: bv8,
                       r2: bv8, g2: bv8, b2: bv8, a2: bv8, r3: bv8, g3: bv8, b3: bv8, a3: bv8)
    ensures var w := PackAlpha(Load64(r0, g0, b0, a0, r1, g1, b1, a1), Load64(r2, g2, b2, a2, r3, g3, b3, a3));
            && Lane(w, 0) == ToRgb5A3(r0, g0, b0, a0) && Lane(w, 1) == ToRgb5A3(r1, g1, b1, a1)
            && Lane(w, 2) == ToRgb5A3(r2, g2, b2, a2) && Lane(w, 3) == ToRgb5A3(r3, g3, b3, a3)
  {
    FirstLane(r0, g0, b0, a0, r1, g1, b1, a1);
    var fieldA, fieldB := Load64(r0, g0, b0, a0, r1, g1, b1, a1), Load64(r2, g2, b2, a2, r3, g3, b3, a3);
    SecondLane(PackFirst(fieldA), r0, g0, b0, a0, r1, g1, b1, a1);
    ThirdLane(PackSecond(PackFirst(fieldA), fieldA), r2, g2, b2, a2, r3, g3, b3, a3);
    FourthLane(PackThird(PackSecond(PackFirst(fieldA), fieldA), fieldB), r2, g2, b2, a2, r3, g3, b3, a3);
  }

  // ---- RGBA8: alpha and red in one word, green and blue in another ----

  function PackAR(fieldA: bv64, fieldB: bv64): bv64 {
    ((fieldA & 0xFF00000000) << 24) | ((fieldA & 0xFF00000000000000) >> 8)
    | ((fieldA & 0xFF) << 40) | ((fieldA & 0xFF000000) << 8)
    | ((fieldB & 0xFF00000000) >> 8) | ((fieldB & 0xFF00000000000000) >> 40)
    | ((fieldB & 0xFF) << 8) | ((fieldB & 0xFF000000) >> 24)
  }

  function PackGB(fieldA: bv64, fieldB: bv64): bv64 {
    ((fieldA & 0xFFFF0000000000) << 8) | ((fieldA & 0xFFFF00) << 24)
    | ((fieldB & 0xFFFF0000000000) >> 24) | ((fieldB & 0xFFFF00) >> 8)
  }

  function PackOpaqueAR(alphaMask: bv64, field64: bv64, field32: bv64): bv64 {
    ((field64 & 0xFF00000000000000) >> 8) | (field64 & 0xFF00000000)
    | ((field64 & 0xFF00) << 8) | ((field32 & 0xFF0000) >> 16) | alphaMask
  }

  function PackOpaqueGB(field64: bv64, field32: bv64): bv64 {
    ((field64 & 0xFFFF0000000000) << 8) | ((field64 & 0xFFFF0000) << 16)
    | ((field64 & 0xFF) << 24) | ((field32 & 0xFF000000) >> 8) | (field32 & 0xFFFF)
  }

  lemma PackARLanes(r0: bv8, g0: bv8, b0: bv8, a0: bv8, r1: bv8, g1: bv8, b1: bv8, a1: bv8,
                    r2: bv8, g2: bv8, b2: bv8, a2: bv8, r3: bv8, g3: bv8, b3: bv8, a3: bv8)
    ensures var ar := PackAR(Load64(r0, g0, b0, a0, r1, g1, b1, a1), Load64(r2, g2, b2, a2, r3, g3, b3, a3));
            && Lane(ar, 0) == Pair(a0, r0) && Lane(ar, 1) == Pair(a1, r1) && Lane(ar, 2) == Pair(a2, r2)
            && Lane(ar, 3) == Pair(a3, r3)
  {
  }

  lemma PackGBLanes(r0: bv8, g0: bv8, b0: bv8, a0: bv8, r1: bv8, g1: bv8, b1: bv8, a1: bv8,
                    r2: bv8, g2: bv8, b2: bv8, a2: bv8, r3: bv8, g3: bv8, b3: bv8, a3: bv8)
    ensures var gb := PackGB(Load64(r0, g0, b0, a0, r1, g1, b1, a1), Load64(r2, g2, b2, a2, r3, g3, b3, a3));
            && Lane(gb, 0) == Pair(g0, b0) && Lane(gb, 1) == Pair(g1, b1) && Lane(gb, 2) == Pair(g2, b2)
            && Lane(gb, 3) == Pair(g3, b3)
  {
  }

  lemma OpaqueARFirstLanes(a: bv8, r0: bv8, g0: bv8, b0: bv8, r1: bv8, g1: bv8, b1: bv8,
                           r2: bv8, g2: bv8, b2: bv8, r3: bv8, g3: bv8, b3: bv8)
    ensures var ar := PackOpaqueAR(AlphaMask(a), Load64(r0, g0, b0, r1, g1, b1, r2, g2), Load32(b2, r3, g3, b3));
            Lane(ar, 0) == Pair(a, r0) && Lane(ar, 1) == Pair(a, r1)
  {
  }

  lemma OpaqueARLastLanes(a: bv8, r0: bv8, g0: bv8, b0: bv8, r1: bv8, g1: bv8, b1: bv8,
                          r2: bv8, g2: bv8, b2: bv8, r3: bv8, g3: bv8, b3: bv8)
    ensures var ar := PackOpaqueAR(AlphaMask(a), Load64(r0, g0, b0, r1, g1, b1, r2, g2), Load32(b2, r3, g3, b3));
            Lane(ar, 2) == Pair(a, r2) && Lane(ar, 3) == Pair(a, r3)
  {
  }

  lemma PackOpaqueARLanes(a: bv8, r0: bv8, g0: bv8, b0: bv8, r1: bv8, g1: bv8, b1: bv8,
                          r2: bv8, g2: bv8, b2: bv8, r3: bv8, g3: bv8, b3: bv8)
    ensures var ar := PackOpaqueAR(AlphaMask(a), Load64(r0, g0, b0, r1, g1, b1, r2, g2), Load32(b2, r3, g3, b3));
            && Lane(ar, 0) == Pair(a, r0) && Lane(ar, 1) == Pair(a, r1) && Lane(ar, 2) == Pair(a, r2)
            && Lane(ar, 3) == Pair(a, r3)
  {
    OpaqueARFirstLanes(a, r0, g0, b0, r1, g1, b1, r2, g2, b2, r3, g3, b3);
    OpaqueARLastLanes(a, r0, g0, b0, r1, g1, b1, r2, g2, b2, r3, g3, b3);
  }

  lemma PackOpaqueGBLanes(r0: bv8, g0: bv8, b0: bv8, r1: bv8, g1: bv8, b1: bv8,
                          r2: bv8, g2: bv8, b2: bv8, r3: bv8, g3: bv8, b3: bv8)
    ensures var gb := PackOpaqueGB(Load64(r0, g0, b0, r1, g1, b1, r2, g2), Load32(b2, r3, g3, b3));
            && Lane(gb, 0) == Pair(g0, b0) && Lane(gb, 1) == Pair(g1, b1) && Lane(gb, 2) == Pair(g2, b2)
            && Lane(gb, 3) == Pair(g3, b3)
  {
  }
}
