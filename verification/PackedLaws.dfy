// shared/riivo.h, lines 28-45: the records of the packed index, byte by byte.

module PackedLaws {
  import opened Bits
  import opened CStrings
  import opened PackedIndex

  /** The word whose bytes, the most significant first, these are. */
  function WordFrom(b0: byte, b1: byte, b2: byte, b3: byte): u32 {
    ((b0 as int * 256 + b1) * 256 + b2) * 256 + b3
  }

  lemma WordLaidOut(b0: byte, b1: byte, b2: byte, b3: byte)
    ensures WordChars(WordFrom(b0, b1, b2, b3)) == [b0 as char, b1 as char, b2 as char, b3 as char]
  {
    var w := WordFrom(b0, b1, b2, b3);
    UpperBytes(b0, b1, b2, b3, w);
    var x, y := b0 as int * 256 + b1, (b0 as int * 256 + b1) * 256 + b2;
    assert x % 256 == b1 && y % 256 == b2 && w % 256 == b3;
  }

  lemma UpperBytes(b0: byte, b1: byte, b2: byte, b3: byte, w: u32)
    requires w == ((b0 as int * 256 + b1) * 256 + b2) * 256 + b3
    ensures w / 0x100_0000 == b0 && w / 0x1_0000 == b0 as int * 256 + b1
    ensures w / 0x100 == (b0 as int * 256 + b1) * 256 + b2
  {
  }

  /** A replacement: four bytes of pointer to the disc path, four of hash, four of entry number. */
  lemma ReplacementLaidOut(b: seq<byte>)
    requires |b| == 12
    ensures ReplacementChars(WordFrom(b[0], b[1], b[2], b[3]), WordFrom(b[4], b[5], b[6], b[7]),
                             WordFrom(b[8], b[9], b[10], b[11]))
              == [b[0] as char, b[1] as char, b[2] as char, b[3] as char,
                  b[4] as char, b[5] as char, b[6] as char, b[7] as char,
                  b[8] as char, b[9] as char, b[10] as char, b[11] as char]
  {
    WordLaidOut(b[0], b[1], b[2], b[3]);
    WordLaidOut(b[4], b[5], b[6], b[7]);
    WordLaidOut(b[8], b[9], b[10], b[11]);
  }

  /** An SD file: four bytes of pointer to the path, and no open file. */
  lemma SdFileLaidOut(b: seq<byte>)
    requires |b| == 4
    ensures SdFileChars(WordFrom(b[0], b[1], b[2], b[3]))
              == [b[0] as char, b[1] as char, b[2] as char, b[3] as char, '\0', '\0', '\0', '\0']
  {
    WordLaidOut(b[0], b[1], b[2], b[3]);
    WordLaidOut(0, 0, 0, 0);
  }
}
