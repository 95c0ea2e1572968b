// source/util.c and runtime-ext/source/util.c: alignment of 32-bit addresses.

module Alignment {
  import opened Bits

  /** `num & -align_as` on 32-bit words. */
  function AlignDown(num: nat, alignAs: nat): nat
    requires num < WORD && 0 < alignAs <= WORD
  {
    And(num, WORD - alignAs)
  }

  /** `(num + align_as - 1) & -align_as`, the sum wrapping at 32 bits. */
  function AlignUp(num: nat, alignAs: nat): nat
    requires num < WORD && 0 < alignAs <= WORD
  {
    AlignDown(Wrap(num + alignAs - 1), alignAs)
  }

  /** `-align_as` for a power of two is a run of ones over `k` clear bits. */
  lemma NegatedPowerIsMask(k: nat)
    requires k <= 32
    ensures 1 <= Pow2(k) <= WORD
    ensures WORD - Pow2(k) == Shl(Pow2(32 - k) - 1, k)
  {
    var p, m := Pow2(k), Pow2(32 - k);
    Powers();
    Pow2Sum(32 - k, k);
    TimesMonotone(1, m, p);
    ShlIsTimes(m - 1, k);
    assert (m - 1) * p == m * p - p;
  }

  lemma WordBelow(num: nat, n: nat, k: nat)
    requires num < WORD && n + k == 32
    ensures num < Pow2(n + k)
  {
    Powers();
  }

  lemma AlignDownShifts(num: nat, k: nat)
    requires num < WORD && k <= 32 && 1 <= Pow2(k) <= WORD
    ensures AlignDown(num, Pow2(k)) == Shl(Shr(num, k), k)
  {
    var p := Pow2(k);
    WordBelow(num, 32 - k, k);
    NegatedPowerIsMask(k);
    MaskShifts(num, WORD - p, 32 - k, k);
    AlignDownIsAnd(num, p);
  }

  lemma AlignDownIsAnd(num: nat, alignAs: nat)
    requires num < WORD && 0 < alignAs <= WORD
    ensures AlignDown(num, alignAs) == And(num, WORD - alignAs)
  {
  }

  lemma MaskShifts(num: nat, mask: nat, n: nat, k: nat)
    requires num < Pow2(n + k) && mask == Shl(Pow2(n) - 1, k)
    ensures And(num, mask) == Shl(Shr(num, k), k)
  {
    AndTop(num, n, k);
  }

  /** For a power of two: the largest multiple not above the number. */
  lemma AlignDownIsFloor(num: nat, k: nat)
    requires num < WORD && k <= 32
    ensures 1 <= Pow2(k) <= WORD
    ensures AlignDown(num, Pow2(k)) % Pow2(k) == 0
    ensures AlignDown(num, Pow2(k)) <= num < AlignDown(num, Pow2(k)) + Pow2(k)
  {
    NegatedPowerIsMask(k);
    AlignDownShifts(num, k);
    ClearedLowBits(num, k);
  }

  /** Without wrap-around: the smallest multiple not below the number. */
  lemma AlignUpIsCeiling(num: nat, k: nat)
    requires k <= 32 && num + Pow2(k) - 1 < WORD
    ensures Pow2(k) <= WORD
    ensures AlignUp(num, Pow2(k)) % Pow2(k) == 0
    ensures num <= AlignUp(num, Pow2(k)) < num + Pow2(k)
  {
    var raised := num + Pow2(k) - 1;
    NegatedPowerIsMask(k);
    AlignDownIsFloor(raised, k);
  }

  const CACHE_LINE: nat := 32

  /** The range `rrc_invalidate_cache` hands to the cache instructions: whole lines covering every byte asked for. */
  lemma InvalidatedRangeCovers(addr: nat, size: nat)
    requires addr < WORD && size + 63 < WORD
    ensures var from, len := AlignDown(addr, CACHE_LINE), AlignUp(size + CACHE_LINE, CACHE_LINE);
            from % 32 == 0 && len % 32 == 0 && from <= addr && addr + size <= from + len
  {
    Powers();
    AlignDownIsFloor(addr, 5);
    AlignUpIsCeiling(size + 32, 5);
  }
}
