// runtime-ext/source/dvd.c, lines 45-51: tagging SD entry numbers inside the game's own entry numbers.

module EntryTag {
  import opened Bits

  const SPECIAL_ENTRYNUM: nat := Shl(0x1FD, 22)
  const SPECIAL_ENTRYNUM_MASK: nat := Shl(0x3FF, 22)
  const MAX_ENTRIES: nat := 0x40_0000

  predicate IsSpecial(word: nat) {
    And(word, SPECIAL_ENTRYNUM_MASK) == SPECIAL_ENTRYNUM
  }

  function Tagged(entrynum: nat): nat {
    Or(SPECIAL_ENTRYNUM, entrynum)
  }

  /** `word & ~SPECIAL_ENTRYNUM_MASK` */
  function Untagged(word: nat): nat {
    And(word, Pow2(22) - 1)
  }

  lemma MaskValues()
    ensures Pow2(22) == MAX_ENTRIES
    ensures SPECIAL_ENTRYNUM == 0x1FD * MAX_ENTRIES && SPECIAL_ENTRYNUM_MASK == 0x3FF * MAX_ENTRIES
    ensures WORD - 1 - SPECIAL_ENTRYNUM_MASK == Pow2(22) - 1
  {
    Powers();
    ShlIsTimes(0x1FD, 22);
    ShlIsTimes(0x3FF, 22);
  }

  lemma SpecialIsTopBits(word: nat)
    requires word < WORD
    ensures IsSpecial(word) <==> word / MAX_ENTRIES == 0x1FD
    ensures Untagged(word) == word % MAX_ENTRIES
  {
    MaskValues();
    AndLow(word, 22);
    Powers();
    AndTop(word, 10, 22);
    ShiftedBack(word, 22);
  }

  /** Entry numbers below 2^22 survive the tag, are recognised, and stay non-negative as signed words. */
  lemma TagRoundTrip(entrynum: nat)
    requires entrynum < MAX_ENTRIES
    ensures Tagged(entrynum) < WORD / 2
    ensures IsSpecial(Tagged(entrynum))
    ensures Untagged(Tagged(entrynum)) == entrynum
  {
    MaskValues();
    OrFields(0x1FD, entrynum, 22);
    SpecialIsTopBits(Tagged(entrynum));
  }

  /** Conversely a recognised word is the tag of exactly one entry number. */
  lemma SpecialIsTagged(word: nat)
    requires word < WORD && IsSpecial(word)
    ensures Untagged(word) < MAX_ENTRIES && word == Tagged(Untagged(word))
  {
    MaskValues();
    SpecialIsTopBits(word);
    OrFields(0x1FD, word % MAX_ENTRIES, 22);
  }
}
