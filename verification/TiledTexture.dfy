// source/pngu/pngu.c, lines 240-680: decoding images into textures of 4x4 tiles.

/** The tiled copy loops: every word of the texture is written, and every texel is its pixel's conversion. */
module TiledTexture {
  import opened Bits
  import opened Pixels

  type Rows = seq<seq<bv8>>

  /** A byte of the image; zero outside it. */
  function Byte(rows: Rows, y: nat, k: nat): bv8 {
    if y < |rows| && k < |rows[y]| then rows[y][k] else 0
  }

  /** `*((PNGU_u64 *)(row_pointers[y] + k))` */
  function Field64(rows: Rows, y: nat, k: nat): bv64 {
    Load64(Byte(rows, y, k), Byte(rows, y, k + 1), Byte(rows, y, k + 2), Byte(rows, y, k + 3),
           Byte(rows, y, k + 4), Byte(rows, y, k + 5), Byte(rows, y, k + 6), Byte(rows, y, k + 7))
  }

  /** `(PNGU_u64) *((PNGU_u32 *)(row_pointers[y] + k))` */
  function Field32(rows: Rows, y: nat, k: nat): bv64 {
    Load32(Byte(rows, y, k), Byte(rows, y, k + 1), Byte(rows, y, k + 2), Byte(rows, y, k + 3))
  }

  // ---- The word each loop stores for image row `y` and the `x`-th four pixels in it ----

  function Word565(rows: Rows, y: nat, x: nat): bv64 {
    Pack565(Field64(rows, y, 12 * x), Field32(rows, y, 12 * x + 8))
  }

  function Word5A3Alpha(rows: Rows, y: nat, x: nat): bv64 {
    PackAlpha(Field64(rows, y, 16 * x), Field64(rows, y, 16 * x + 8))
  }

  /** The default alpha decides once for the whole texture. */
  function Word5A3(rows: Rows, y: nat, x: nat, defaultAlpha: bv8): bv64 {
    var field64, field32 := Field64(rows, y, 12 * x), Field32(rows, y, 12 * x + 8);
    if defaultAlpha >> 5 == 7 then PackOpaque(OPAQUE_MASK, field64, field32)
    else PackTranslucent(AlphaMask((defaultAlpha >> 5) << 4), field64, field32)
  }

  /** RGBA8 tiles hold eight words: four of alpha and red, then four of green and blue. */
  function Word8Alpha(rows: Rows, y: nat, x: nat, slot: nat): bv64 {
    var fieldA, fieldB := Field64(rows, y, 16 * x), Field64(rows, y, 16 * x + 8);
    if slot < 4 then PackAR(fieldA, fieldB) else PackGB(fieldA, fieldB)
  }

  function Word8(rows: Rows, y: nat, x: nat, slot: nat, defaultAlpha: bv8): bv64 {
    var field64, field32 := Field64(rows, y, 12 * x), Field32(rows, y, 12 * x + 8);
    if slot < 4 then PackOpaqueAR(AlphaMask(defaultAlpha), field64, field32) else PackOpaqueGB(field64, field32)
  }

  /** Every row has four times `size` bytes for each four pixels. */
  predicate RowsOk(rows: Rows, q: nat, qh: nat, size: nat) {
    |rows| == 4 * qh && forall y :: 0 <= y < |rows| ==> |rows[y]| == size * q
  }

  /** The loads of one group stay inside its row. */
  lemma LoadsInside(rows: Rows, q: nat, qh: nat, size: nat, y: nat, x: nat, k: nat)
    requires RowsOk(rows, q, qh, size) && y < 4 * qh && x < q && k < size
    ensures y < |rows| && size * x + k < |rows[y]| && Byte(rows, y, size * x + k) == rows[y][size * x + k]
  {
    TimesMonotone(x + 1, q, size);
    assert (x + 1) * size == size * x + size && q * size == size * q;
  }

  // ---- The loops ----

  /** How many words a tile has. */
  function Base(wide: bool, block: nat): nat {
    if wide then 8 * block else 4 * block
  }

  /** Tiles in `y` rows of `q`: the product, by addition. */
  function Tiles(q: nat, y: nat): nat {
    if y == 0 then 0 else Tiles(q, y - 1) + q
  }

  lemma {:induction false} TilesIsProduct(q: nat, y: nat)
    ensures Tiles(q, y) == y * q
  {
    if y > 0 {
      TilesIsProduct(q, y - 1);
      assert y * q == (y - 1) * q + q;
    }
  }

  lemma {:induction false} TilesMonotone(q: nat, y: nat, qh: nat)
    requires y <= qh
    ensures Tiles(q, y) <= Tiles(q, qh)
    decreases qh
  {
    if y < qh {
      TilesMonotone(q, y, qh - 1);
    }
  }

  /** The row and the column of a tile: quotient and remainder of its number. */
  function TileRow(q: nat, block: nat): nat
    requires q > 0
  {
    if block < q then 0 else 1 + TileRow(q, block - q)
  }

  function TileColumn(q: nat, block: nat): (x: nat)
    requires q > 0
    ensures x < q
  {
    if block < q then block else TileColumn(q, block - q)
  }

  lemma {:induction false} BlockNumber(q: nat, y: nat, x: nat)
    requires x < q
    ensures TileRow(q, Tiles(q, y) + x) == y && TileColumn(q, Tiles(q, y) + x) == x
    decreases y
  {
    if y > 0 {
      BlockNumber(q, y - 1, x);
    }
  }

  lemma {:induction false} NumberOfBlock(q: nat, block: nat)
    requires q > 0
    ensures Tiles(q, TileRow(q, block)) + TileColumn(q, block) == block
    decreases block
  {
    if block >= q {
      NumberOfBlock(q, block - q);
    }
  }

  /** Word `slot` of tile number `block`, counting tiles row by row, `q` in a row. */
  function WordIn(word: (nat, nat, nat) -> bv64, q: nat, block: nat, slot: nat): bv64
    requires q > 0
  {
    word(4 * TileRow(q, block) + slot % 4, TileColumn(q, block), slot)
  }

  /** The texture's word `i`. */
  function WordAt(word: (nat, nat, nat) -> bv64, wide: bool, q: nat, i: nat): bv64
    requires q > 0
  {
    if wide then WordIn(word, q, i / 8, i % 8) else WordIn(word, q, i / 4, i % 4)
  }

  /** What a tile row's word should be. */
  function Wanted(word: (nat, nat, nat) -> bv64, row: nat, x: nat, slot: nat): bv64 {
    word(row + slot % 4, x, slot)
  }

  predicate FourWords(word: (nat, nat, nat) -> bv64, row: nat, x: nat, slot: nat, words: seq<bv64>, base: nat) {
    && base + 4 <= |words|
    && words[base] == Wanted(word, row, x, slot) && words[base + 1] == Wanted(word, row, x, slot + 1)
    && words[base + 2] == Wanted(word, row, x, slot + 2) && words[base + 3] == Wanted(word, row, x, slot + 3)
  }

  lemma OneOfFour(word: (nat, nat, nat) -> bv64, row: nat, x: nat, slot: nat, words: seq<bv64>, base: nat, k: nat)
    requires FourWords(word, row, x, slot, words, base) && k < 4
    ensures words[base + k] == Wanted(word, row, x, slot + k)
  {
    if k == 0 {
      assert base + k == base;
    } else if k == 1 {
      assert base + k == base + 1;
    }
  }

  /** The words of four image rows, of one kind. */
  method WriteFour(word: (nat, nat, nat) -> bv64, row: nat, x: nat, slot: nat, buffer: array<bv64>, base: nat)
    requires base + 4 <= buffer.Length && slot % 4 == 0
    modifies buffer
    ensures FourWords(word, row, x, slot, buffer[..], base)
    ensures forall i :: 0 <= i < base || base + 4 <= i < buffer.Length ==> buffer[i] == old(buffer[i])
  {
    buffer[base], buffer[base + 1] := word(row, x, slot), word(row + 1, x, slot + 1);
    buffer[base + 2], buffer[base + 3] := word(row + 2, x, slot + 2), word(row + 3, x, slot + 3);
  }

  /** A tile: the words of four image rows. */
  method WriteTile(word: (nat, nat, nat) -> bv64, wide: bool, y: nat, x: nat, buffer: array<bv64>, base: nat)
    requires base + Base(wide, 1) <= buffer.Length
    modifies buffer
    ensures forall slot :: 0 <= slot < Base(wide, 1) ==> buffer[base + slot] == word(4 * y + slot % 4, x, slot)
    ensures forall i :: 0 <= i < base || base + Base(wide, 1) <= i < buffer.Length ==> buffer[i] == old(buffer[i])
  {
    WriteFour(word, 4 * y, x, 0, buffer, base);
    if wide {
      WriteFour(word, 4 * y, x, 4, buffer, base + 4);
    }
    TileWritten(word, wide, 4 * y, x, buffer[..], base);
  }

  lemma TileWritten(word: (nat, nat, nat) -> bv64, wide: bool, row: nat, x: nat, words: seq<bv64>, base: nat)
    requires base + Base(wide, 1) <= |words|
    requires FourWords(word, row, x, 0, words, base) && (wide ==> FourWords(word, row, x, 4, words, base + 4))
    ensures forall slot :: 0 <= slot < Base(wide, 1) ==> words[base + slot] == word(row + slot % 4, x, slot)
  {
    forall slot | 0 <= slot < Base(wide, 1)
      ensures words[base + slot] == word(row + slot % 4, x, slot)
    {
      SlotWritten(word, wide, row, x, words, base, slot);
    }
  }

  lemma SlotWritten(word: (nat, nat, nat) -> bv64, wide: bool, row: nat, x: nat, words: seq<bv64>, base: nat, slot: nat)
    requires base + Base(wide, 1) <= |words| && slot < Base(wide, 1)
    requires FourWords(word, row, x, 0, words, base) && (wide ==> FourWords(word, row, x, 4, words, base + 4))
    ensures words[base + slot] == Wanted(word, row, x, slot)
  {
    if slot < 4 {
      OneOfFour(word, row, x, 0, words, base, slot);
    } else {
      OneOfFour(word, row, x, 4, words, base + 4, slot - 4);
      assert base + 4 + (slot - 4) == base + slot;
    }
  }

  /** The first `n` words are those the image makes. */
  ghost predicate Filled(word: (nat, nat, nat) -> bv64, wide: bool, q: nat, words: seq<bv64>, n: nat) {
    n <= |words| && (n > 0 ==> q > 0) && forall i :: 0 <= i < n ==> words[i] == WordAt(word, wide, q, i)
  }

  lemma OneMoreTile(word: (nat, nat, nat) -> bv64, wide: bool, q: nat, words: seq<bv64>, block: nat, words': seq<bv64>)
    requires q > 0 && Filled(word, wide, q, words, Base(wide, block))
    requires |words'| == |words| && Base(wide, block + 1) <= |words|
    requires forall i :: 0 <= i < Base(wide, block) ==> words'[i] == words[i]
    requires forall slot :: 0 <= slot < Base(wide, 1)
               ==> words'[Base(wide, block) + slot] == WordIn(word, q, block, slot)
    ensures Filled(word, wide, q, words', Base(wide, block + 1))
  {
    forall i | Base(wide, block) <= i < Base(wide, block + 1) ensures words'[i] == WordAt(word, wide, q, i) {
      var slot := i - Base(wide, block);
      assert words'[Base(wide, block) + slot] == WordIn(word, q, block, slot);
    }
  }

  /** The tile loops shared by all formats. Nothing behind the texture is touched. */
  method CopyTiles(word: (nat, nat, nat) -> bv64, wide: bool, q: nat, qh: nat, buffer: array<bv64>)
    requires Base(wide, Tiles(q, qh)) <= buffer.Length
    modifies buffer
    ensures Filled(word, wide, q, buffer[..], Base(wide, Tiles(q, qh)))
    ensures forall i :: Base(wide, Tiles(q, qh)) <= i < buffer.Length ==> buffer[i] == old(buffer[i])
  {
    for y := 0 to qh
      invariant Tiles(q, y) <= Tiles(q, qh)
      invariant Filled(word, wide, q, buffer[..], Base(wide, Tiles(q, y)))
      invariant forall i :: Base(wide, Tiles(q, qh)) <= i < buffer.Length ==> buffer[i] == old(buffer[i])
    {
      TilesMonotone(q, y + 1, qh);
      for x := 0 to q
        invariant Filled(word, wide, q, buffer[..], Base(wide, Tiles(q, y) + x))
        invariant forall i :: Base(wide, Tiles(q, qh)) <= i < buffer.Length ==> buffer[i] == old(buffer[i])
      {
        BlockNumber(q, y, x);
        CopyTile(word, wide, q, y, x, Tiles(q, y) + x, buffer);
      }
    }
  }

  method CopyTile(word: (nat, nat, nat) -> bv64, wide: bool, q: nat, y: nat, x: nat, block: nat, buffer: array<bv64>)
    requires Base(wide, block + 1) <= buffer.Length && q > 0 && TileRow(q, block) == y && TileColumn(q, block) == x
    requires Filled(word, wide, q, buffer[..], Base(wide, block))
    modifies buffer
    ensures Filled(word, wide, q, buffer[..], Base(wide, block + 1))
    ensures forall i :: Base(wide, block + 1) <= i < buffer.Length ==> buffer[i] == old(buffer[i])
  {
    ghost var words := buffer[..];
    WriteTile(word, wide, y, x, buffer, Base(wide, block));
    OneMoreTile(word, wide, q, words, block, buffer[..]);
  }

  // ---- Texels ----

  /** The tile of texel (X, Y). */
  function TileOf(q: nat, X: nat, Y: nat): nat { Tiles(q, Y / 4) + X / 4 }

  /** The word that holds texel (X, Y): tiles in reading order, then rows in a tile; `half` selects green and blue. */
  function Index(wide: bool, q: nat, X: nat, Y: nat, half: nat): nat {
    Base(wide, TileOf(q, X, Y)) + 4 * half + Y % 4
  }

  /**
   * The place as the source computes it: `(y * qwidth + x) * 4` words for the tiles before, twice as many for RGBA8.
   */
  lemma IndexIsProduct(wide: bool, q: nat, X: nat, Y: nat, half: nat)
    ensures Index(wide, q, X, Y, half) == (if wide then 8 else 4) * ((Y / 4) * q + X / 4) + 4 * half + Y % 4
  {
    TilesIsProduct(q, Y / 4);
  }

  /** Different texels, and different halves of one, have different places. */
  lemma TexelsDistinct(wide: bool, q: nat, X: nat, Y: nat, half: nat, X': nat, Y': nat, half': nat)
    requires X < 4 * q && X' < 4 * q && X % 4 == X' % 4 && half < 2 && half' < 2 && (!wide ==> half == half' == 0)
    requires Index(wide, q, X, Y, half) == Index(wide, q, X', Y', half')
    ensures X == X' && Y == Y' && half == half'
  {
    assert TileOf(q, X, Y) == TileOf(q, X', Y');
    BlockNumber(q, Y / 4, X / 4);
    BlockNumber(q, Y' / 4, X' / 4);
  }

  lemma RowOfBlock(q: nat, qh: nat, block: nat)
    requires q > 0 && block < Tiles(q, qh)
    ensures TileRow(q, block) < qh
  {
    NumberOfBlock(q, block);
    if TileRow(q, block) >= qh {
      TilesMonotone(q, qh, TileRow(q, block));
    }
  }

  /** Every lane of every word of the texture is some texel's. */
  lemma EveryLaneIsATexel(wide: bool, q: nat, qh: nat, i: nat, k: nat) returns (X: nat, Y: nat, half: nat)
    requires q > 0 && i < Base(wide, Tiles(q, qh)) && k < 4
    ensures X < 4 * q && Y < 4 * qh && half < 2 && (!wide ==> half == 0)
    ensures Index(wide, q, X, Y, half) == i && X % 4 == k
  {
    var block, r;
    if wide {
      block, half, r := i / 8, i % 8 / 4, i % 4;
    } else {
      block, half, r := i / 4, 0, i % 4;
    }
    assert i == Base(wide, block) + 4 * half + r;
    RowOfBlock(q, qh, block);
    X, Y := TexelOfTile(q, block, r, k);
  }

  lemma TexelOfTile(q: nat, block: nat, r: nat, k: nat) returns (X: nat, Y: nat)
    requires q > 0 && r < 4 && k < 4
    ensures X < 4 * q && TileOf(q, X, Y) == block && Y / 4 == TileRow(q, block) && Y % 4 == r && X % 4 == k
  {
    X, Y := 4 * TileColumn(q, block) + k, 4 * TileRow(q, block) + r;
    NumberOfBlock(q, block);
  }

  lemma TileInside(q: nat, qh: nat, X: nat, Y: nat)
    requires X < 4 * q && Y < 4 * qh
    ensures TileOf(q, X, Y) + 1 <= Tiles(q, qh)
    ensures TileRow(q, TileOf(q, X, Y)) == Y / 4 && TileColumn(q, TileOf(q, X, Y)) == X / 4
  {
    TilesMonotone(q, Y / 4 + 1, qh);
    BlockNumber(q, Y / 4, X / 4);
  }

  lemma WordAtSlot(word: (nat, nat, nat) -> bv64, wide: bool, q: nat, block: nat, slot: nat)
    requires q > 0 && slot < Base(wide, 1)
    ensures WordAt(word, wide, q, Base(wide, block) + slot) == WordIn(word, q, block, slot)
  {
    var i := Base(wide, block) + slot;
    if wide {
      assert i / 8 == block && i % 8 == slot;
    } else {
      assert i / 4 == block && i % 4 == slot;
    }
  }

  lemma TexelWord(word: (nat, nat, nat) -> bv64, wide: bool, q: nat, qh: nat, words: seq<bv64>, X: nat, Y: nat,
                  half: nat)
    requires Filled(word, wide, q, words, Base(wide, Tiles(q, qh))) && X < 4 * q && Y < 4 * qh
    requires half == 0 || (half == 1 && wide)
    ensures Index(wide, q, X, Y, half) < |words|
    ensures words[Index(wide, q, X, Y, half)] == word(Y, X / 4, 4 * half + Y % 4)
  {
    TileInside(q, qh, X, Y);
    var block, slot := TileOf(q, X, Y), 4 * half + Y % 4;
    SlotRow(half, Y % 4);
    WordAtSlot(word, wide, q, block, slot);
    WordInTile(word, q, block, slot, Y);
  }

  lemma SlotRow(half: nat, r: nat)
    requires half < 2 && r < 4
    ensures (4 * half + r) % 4 == r
  {
  }

  lemma WordInTile(word: (nat, nat, nat) -> bv64, q: nat, block: nat, slot: nat, Y: nat)
    requires q > 0 && TileRow(q, block) == Y / 4 && slot % 4 == Y % 4
    ensures WordIn(word, q, block, slot) == word(Y, TileColumn(q, block), slot)
  {
  }

  function Texel(words: seq<bv64>, wide: bool, q: nat, X: nat, Y: nat, half: nat): bv16 {
    var i := Index(wide, q, X, Y, half);
    if i < |words| then Lane(words[i], X % 4) else 0
  }

  function Pixel565(rows: Rows, X: nat, Y: nat): bv16 {
    ToRgb565(Byte(rows, Y, 3 * X), Byte(rows, Y, 3 * X + 1), Byte(rows, Y, 3 * X + 2))
  }

  lemma Word565Lanes(rows: Rows, Y: nat, x: nat)
    ensures Lane(Word565(rows, Y, x), 0) == Pixel565(rows, 4 * x, Y)
    ensures Lane(Word565(rows, Y, x), 1) == Pixel565(rows, 4 * x + 1, Y)
    ensures Lane(Word565(rows, Y, x), 2) == Pixel565(rows, 4 * x + 2, Y)
    ensures Lane(Word565(rows, Y, x), 3) == Pixel565(rows, 4 * x + 3, Y)
  {
    var k := 12 * x;
    Pack565Lanes(Byte(rows, Y, k), Byte(rows, Y, k + 1), Byte(rows, Y, k + 2), Byte(rows, Y, k + 3),
                 Byte(rows, Y, k + 4), Byte(rows, Y, k + 5), Byte(rows, Y, k + 6), Byte(rows, Y, k + 7),
                 Byte(rows, Y, k + 8), Byte(rows, Y, k + 9), Byte(rows, Y, k + 10), Byte(rows, Y, k + 11));
  }

  lemma Lane565(rows: Rows, X: nat, Y: nat)
    ensures Lane(Word565(rows, Y, X / 4), X % 4) == Pixel565(rows, X, Y)
  {
    Word565Lanes(rows, Y, X / 4);
  }

  /** `default_alpha` stands in where the image has no alpha channel. */
  function Pixel5A3(rows: Rows, hasAlpha: bool, defaultAlpha: bv8, X: nat, Y: nat): bv16 {
    if hasAlpha then
      ToRgb5A3(Byte(rows, Y, 4 * X), Byte(rows, Y, 4 * X + 1), Byte(rows, Y, 4 * X + 2), Byte(rows, Y, 4 * X + 3))
    else
      ToRgb5A3(Byte(rows, Y, 3 * X), Byte(rows, Y, 3 * X + 1), Byte(rows, Y, 3 * X + 2), defaultAlpha)
  }

  lemma Word5A3AlphaLanes(rows: Rows, alpha: bv8, Y: nat, x: nat)
    ensures Lane(Word5A3Alpha(rows, Y, x), 0) == Pixel5A3(rows, true, alpha, 4 * x, Y)
    ensures Lane(Word5A3Alpha(rows, Y, x), 1) == Pixel5A3(rows, true, alpha, 4 * x + 1, Y)
    ensures Lane(Word5A3Alpha(rows, Y, x), 2) == Pixel5A3(rows, true, alpha, 4 * x + 2, Y)
    ensures Lane(Word5A3Alpha(rows, Y, x), 3) == Pixel5A3(rows, true, alpha, 4 * x + 3, Y)
  {
    var k := 16 * x;
    PackAlphaLanes(Byte(rows, Y, k), Byte(rows, Y, k + 1), Byte(rows, Y, k + 2), Byte(rows, Y, k + 3),
                   Byte(rows, Y, k + 4), Byte(rows, Y, k + 5), Byte(rows, Y, k + 6), Byte(rows, Y, k + 7),
                   Byte(rows, Y, k + 8), Byte(rows, Y, k + 9), Byte(rows, Y, k + 10), Byte(rows, Y, k + 11),
                   Byte(rows, Y, k + 12), Byte(rows, Y, k + 13), Byte(rows, Y, k + 14), Byte(rows, Y, k + 15));
  }

  lemma Word5A3Lanes(rows: Rows, alpha: bv8, Y: nat, x: nat)
    ensures Lane(Word5A3(rows, Y, x, alpha), 0) == Pixel5A3(rows, false, alpha, 4 * x, Y)
    ensures Lane(Word5A3(rows, Y, x, alpha), 1) == Pixel5A3(rows, false, alpha, 4 * x + 1, Y)
    ensures Lane(Word5A3(rows, Y, x, alpha), 2) == Pixel5A3(rows, false, alpha, 4 * x + 2, Y)
    ensures Lane(Word5A3(rows, Y, x, alpha), 3) == Pixel5A3(rows, false, alpha, 4 * x + 3, Y)
  {
    var k := 12 * x;
    if alpha >> 5 == 7 {
      PackOpaqueLanes(alpha, Byte(rows, Y, k), Byte(rows, Y, k + 1), Byte(rows, Y, k + 2), Byte(rows, Y, k + 3),
                    Byte(rows, Y, k + 4), Byte(rows, Y, k + 5), Byte(rows, Y, k + 6), Byte(rows, Y, k + 7),
                    Byte(rows, Y, k + 8), Byte(rows, Y, k + 9), Byte(rows, Y, k + 10), Byte(rows, Y, k + 11));
    } else {
      PackTranslucentLanes(alpha, Byte(rows, Y, k), Byte(rows, Y, k + 1), Byte(rows, Y, k + 2), Byte(rows, Y, k + 3),
                         Byte(rows, Y, k + 4), Byte(rows, Y, k + 5), Byte(rows, Y, k + 6), Byte(rows, Y, k + 7),
                         Byte(rows, Y, k + 8), Byte(rows, Y, k + 9), Byte(rows, Y, k + 10), Byte(rows, Y, k + 11));
    }
  }

  lemma Lane5A3(rows: Rows, hasAlpha: bool, alpha: bv8, X: nat, Y: nat)
    ensures hasAlpha ==> Lane(Word5A3Alpha(rows, Y, X / 4), X % 4) == Pixel5A3(rows, hasAlpha, alpha, X, Y)
    ensures !hasAlpha ==> Lane(Word5A3(rows, Y, X / 4, alpha), X % 4) == Pixel5A3(rows, hasAlpha, alpha, X, Y)
  {
    if hasAlpha {
      Word5A3AlphaLanes(rows, alpha, Y, X / 4);
    } else {
      Word5A3Lanes(rows, alpha, Y, X / 4);
    }
  }

  /** The two halves of an RGBA8 texel: alpha and red, green and blue. */
  function Pixel8(rows: Rows, hasAlpha: bool, defaultAlpha: bv8, X: nat, Y: nat, half: nat): bv16 {
    if hasAlpha then
      if half == 0 then Pair(Byte(rows, Y, 4 * X + 3), Byte(rows, Y, 4 * X))
      else Pair(Byte(rows, Y, 4 * X + 1), Byte(rows, Y, 4 * X + 2))
    else
      if half == 0 then Pair(defaultAlpha, Byte(rows, Y, 3 * X))
      else Pair(Byte(rows, Y, 3 * X + 1), Byte(rows, Y, 3 * X + 2))
  }

  lemma Word8AlphaARLanes(rows: Rows, alpha: bv8, Y: nat, x: nat, slot: nat)
    requires slot < 4
    ensures Lane(Word8Alpha(rows, Y, x, slot), 0) == Pixel8(rows, true, alpha, 4 * x, Y, 0)
    ensures Lane(Word8Alpha(rows, Y, x, slot), 1) == Pixel8(rows, true, alpha, 4 * x + 1, Y, 0)
    ensures Lane(Word8Alpha(rows, Y, x, slot), 2) == Pixel8(rows, true, alpha, 4 * x + 2, Y, 0)
    ensures Lane(Word8Alpha(rows, Y, x, slot), 3) == Pixel8(rows, true, alpha, 4 * x + 3, Y, 0)
  {
    var k := 16 * x;
    PackARLanes(Byte(rows, Y, k), Byte(rows, Y, k + 1), Byte(rows, Y, k + 2), Byte(rows, Y, k + 3),
                Byte(rows, Y, k + 4), Byte(rows, Y, k + 5), Byte(rows, Y, k + 6), Byte(rows, Y, k + 7),
                Byte(rows, Y, k + 8), Byte(rows, Y, k + 9), Byte(rows, Y, k + 10), Byte(rows, Y, k + 11),
                Byte(rows, Y, k + 12), Byte(rows, Y, k + 13), Byte(rows, Y, k + 14), Byte(rows, Y, k + 15));
  }

  lemma Word8ARLanes(rows: Rows, alpha: bv8, Y: nat, x: nat, slot: nat)
    requires slot < 4
    ensures Lane(Word8(rows, Y, x, slot, alpha), 0) == Pixel8(rows, false, alpha, 4 * x, Y, 0)
    ensures Lane(Word8(rows, Y, x, slot, alpha), 1) == Pixel8(rows, false, alpha, 4 * x + 1, Y, 0)
    ensures Lane(Word8(rows, Y, x, slot, alpha), 2) == Pixel8(rows, false, alpha, 4 * x + 2, Y, 0)
    ensures Lane(Word8(rows, Y, x, slot, alpha), 3) == Pixel8(rows, false, alpha, 4 * x + 3, Y, 0)
  {
    var k := 12 * x;
    PackOpaqueARLanes(alpha, Byte(rows, Y, k), Byte(rows, Y, k + 1), Byte(rows, Y, k + 2), Byte(rows, Y, k + 3),
                      Byte(rows, Y, k + 4), Byte(rows, Y, k + 5), Byte(rows, Y, k + 6), Byte(rows, Y, k + 7),
                      Byte(rows, Y, k + 8), Byte(rows, Y, k + 9), Byte(rows, Y, k + 10), Byte(rows, Y, k + 11));
  }

  lemma Word8AlphaGBLanes(rows: Rows, alpha: bv8, Y: nat, x: nat, slot: nat)
    requires slot >= 4
    ensures Lane(Word8Alpha(rows, Y, x, slot), 0) == Pixel8(rows, true, alpha, 4 * x, Y, 1)
    ensures Lane(Word8Alpha(rows, Y, x, slot), 1) == Pixel8(rows, true, alpha, 4 * x + 1, Y, 1)
    ensures Lane(Word8Alpha(rows, Y, x, slot), 2) == Pixel8(rows, true, alpha, 4 * x + 2, Y, 1)
    ensures Lane(Word8Alpha(rows, Y, x, slot), 3) == Pixel8(rows, true, alpha, 4 * x + 3, Y, 1)
  {
    var k := 16 * x;
    PackGBLanes(Byte(rows, Y, k), Byte(rows, Y, k + 1), Byte(rows, Y, k + 2), Byte(rows, Y, k + 3),
                Byte(rows, Y, k + 4), Byte(rows, Y, k + 5), Byte(rows, Y, k + 6), Byte(rows, Y, k + 7),
                Byte(rows, Y, k + 8), Byte(rows, Y, k + 9), Byte(rows, Y, k + 10), Byte(rows, Y, k + 11),
                Byte(rows, Y, k + 12), Byte(rows, Y, k + 13), Byte(rows, Y, k + 14), Byte(rows, Y, k + 15));
  }

  lemma Word8GBLanes(rows: Rows, alpha: bv8, Y: nat, x: nat, slot: nat)
    requires slot >= 4
    ensures Lane(Word8(rows, Y, x, slot, alpha), 0) == Pixel8(rows, false, alpha, 4 * x, Y, 1)
    ensures Lane(Word8(rows, Y, x, slot, alpha), 1) == Pixel8(rows, false, alpha, 4 * x + 1, Y, 1)
    ensures Lane(Word8(rows, Y, x, slot, alpha), 2) == Pixel8(rows, false, alpha, 4 * x + 2, Y, 1)
    ensures Lane(Word8(rows, Y, x, slot, alpha), 3) == Pixel8(rows, false, alpha, 4 * x + 3, Y, 1)
  {
    var k := 12 * x;
    PackOpaqueGBLanes(Byte(rows, Y, k), Byte(rows, Y, k + 1), Byte(rows, Y, k + 2), Byte(rows, Y, k + 3),
                      Byte(rows, Y, k + 4), Byte(rows, Y, k + 5), Byte(rows, Y, k + 6), Byte(rows, Y, k + 7),
                      Byte(rows, Y, k + 8), Byte(rows, Y, k + 9), Byte(rows, Y, k + 10), Byte(rows, Y, k + 11));
  }

  lemma Lane8(rows: Rows, hasAlpha: bool, alpha: bv8, X: nat, Y: nat, half: nat, slot: nat)
    requires half < 2 && (half == 0 <==> slot < 4)
    ensures hasAlpha ==> Lane(Word8Alpha(rows, Y, X / 4, slot), X % 4) == Pixel8(rows, hasAlpha, alpha, X, Y, half)
    ensures !hasAlpha ==> Lane(Word8(rows, Y, X / 4, slot, alpha), X % 4) == Pixel8(rows, hasAlpha, alpha, X, Y, half)
  {
    if hasAlpha && half == 0 {
      Word8AlphaARLanes(rows, alpha, Y, X / 4, slot);
    } else if hasAlpha {
      Word8AlphaGBLanes(rows, alpha, Y, X / 4, slot);
    } else if half == 0 {
      Word8ARLanes(rows, alpha, Y, X / 4, slot);
    } else {
      Word8GBLanes(rows, alpha, Y, X / 4, slot);
    }
  }

  // ---- Decoding ----

  const OK: int := 0
  const INVALID_WIDTH_OR_HEIGHT: int := 3

  /** What `pngu_decode` gives: a result code and, when it is OK, the rows of the image. */
  datatype Decoded = Decoded(code: int, rows: Rows, hasAlpha: bool)

  function ResultOf(width: nat, height: nat, d: Decoded): int {
    if width % 4 != 0 || height % 4 != 0 then INVALID_WIDTH_OR_HEIGHT else d.code
  }

  /** The decoder's rows and the caller's buffer have the sizes the loops rely on. */
  predicate Sized(width: nat, height: nat, d: Decoded, size: nat, buffer: nat, wide: bool) {
    && (ResultOf(width, height, d) == OK ==> RowsOk(d.rows, width / 4, height / 4, size))
    && Base(wide, Tiles(width / 4, height / 4)) <= buffer
  }

  /** `PNGU_DecodeTo4x4RGB565`; the decoder strips alpha here. */
  method DecodeTo4x4Rgb565(width: nat, height: nat, d: Decoded, buffer: array<bv64>) returns (result: int)
    requires Sized(width, height, d, 12, buffer.Length, false)
    modifies buffer
    ensures result == if width % 4 == 0 && height % 4 == 0 then d.code else 3
    ensures result == OK ==> forall X, Y :: 0 <= X < width && 0 <= Y < height ==>
              Texel(buffer[..], false, width / 4, X, Y, 0) == Pixel565(d.rows, X, Y)
    ensures forall i :: 0 <= i < buffer.Length && (result == OK ==> i >= Base(false, Tiles(width / 4, height / 4))) ==>
              buffer[i] == old(buffer[i])
  {
    result := ResultOf(width, height, d);
    if result != OK {
      return;
    }
    var q, qh, rows := width / 4, height / 4, d.rows;
    var word := (y: nat, x: nat, slot: nat) => Word565(rows, y, x);
    CopyTiles(word, false, q, qh, buffer);
    forall X, Y | 0 <= X < width && 0 <= Y < height
      ensures Texel(buffer[..], false, q, X, Y, 0) == Pixel565(rows, X, Y) {
      TexelWord(word, false, q, qh, buffer[..], X, Y, 0);
      Lane565(rows, X, Y);
    }
  }

  /** `PNGU_DecodeTo4x4RGB5A3`: with an alpha channel each pixel is opaque or translucent by itself. */
  method DecodeTo4x4Rgb5A3(width: nat, height: nat, d: Decoded, defaultAlpha: bv8, buffer: array<bv64>)
    returns (result: int)
    requires Sized(width, height, d, if d.hasAlpha then 16 else 12, buffer.Length, false)
    modifies buffer
    ensures result == if width % 4 == 0 && height % 4 == 0 then d.code else 3
    ensures result == OK ==> forall X, Y :: 0 <= X < width && 0 <= Y < height ==>
              Texel(buffer[..], false, width / 4, X, Y, 0) == Pixel5A3(d.rows, d.hasAlpha, defaultAlpha, X, Y)
    ensures forall i :: 0 <= i < buffer.Length && (result == OK ==> i >= Base(false, Tiles(width / 4, height / 4))) ==>
              buffer[i] == old(buffer[i])
  {
    result := ResultOf(width, height, d);
    if result != OK {
      return;
    }
    var q, qh, rows := width / 4, height / 4, d.rows;
    var word: (nat, nat, nat) -> bv64;
    if d.hasAlpha {
      word := (y: nat, x: nat, slot: nat) => Word5A3Alpha(rows, y, x);
    } else {
      word := (y: nat, x: nat, slot: nat) => Word5A3(rows, y, x, defaultAlpha);
    }
    CopyTiles(word, false, q, qh, buffer);
    forall X, Y | 0 <= X < width && 0 <= Y < height
      ensures Texel(buffer[..], false, q, X, Y, 0) == Pixel5A3(rows, d.hasAlpha, defaultAlpha, X, Y) {
      TexelWord(word, false, q, qh, buffer[..], X, Y, 0);
      Lane5A3(rows, d.hasAlpha, defaultAlpha, X, Y);
    }
  }

  /** `PNGU_DecodeTo4x4RGBA8` */
  method DecodeTo4x4Rgba8(width: nat, height: nat, d: Decoded, defaultAlpha: bv8, buffer: array<bv64>)
    returns (result: int)
    requires Sized(width, height, d, if d.hasAlpha then 16 else 12, buffer.Length, true)
    modifies buffer
    ensures result == if width % 4 == 0 && height % 4 == 0 then d.code else 3
    ensures result == OK ==> forall X, Y, half :: 0 <= X < width && 0 <= Y < height && 0 <= half < 2 ==>
              Texel(buffer[..], true, width / 4, X, Y, half) == Pixel8(d.rows, d.hasAlpha, defaultAlpha, X, Y, half)
    ensures forall i :: 0 <= i < buffer.Length && (result == OK ==> i >= Base(true, Tiles(width / 4, height / 4))) ==>
              buffer[i] == old(buffer[i])
  {
    result := ResultOf(width, height, d);
    if result != OK {
      return;
    }
    var q, qh, rows := width / 4, height / 4, d.rows;
    var word: (nat, nat, nat) -> bv64;
    if d.hasAlpha {
      word := (y: nat, x: nat, slot: nat) => Word8Alpha(rows, y, x, slot);
    } else {
      word := (y: nat, x: nat, slot: nat) => Word8(rows, y, x, slot, defaultAlpha);
    }
    CopyTiles(word, true, q, qh, buffer);
    forall X, Y, half | 0 <= X < width && 0 <= Y < height && 0 <= half < 2
      ensures Texel(buffer[..], true, q, X, Y, half) == Pixel8(rows, d.hasAlpha, defaultAlpha, X, Y, half) {
      TexelWord(word, true, q, qh, buffer[..], X, Y, half);
      Lane8(rows, d.hasAlpha, defaultAlpha, X, Y, half, 4 * half + Y % 4);
    }
  }
}
