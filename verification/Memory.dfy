// The 32-bit address space the launcher and the game share.

/** Memory as one byte per address; words are big-endian; addresses wrap at 32 bits. */
module Memory {
  import opened Bits

  type word = x: int | 0 <= x < WORD

  type Space = m: seq<byte> | |m| == WORD ghost witness seq(WORD, _ => 0)

  function BigEndian(b0: int, b1: int, b2: int, b3: int): int {
    b0 * 0x100_0000 + b1 * 0x1_0000 + b2 * 0x100 + b3
  }

  function WordAt(m: Space, a: nat): word {
    BigEndian(m[Wrap(a)], m[Wrap(a + 1)], m[Wrap(a + 2)], m[Wrap(a + 3)])
  }

  function WordBytes(w: word): (r: seq<byte>)
    ensures |r| == 4
  {
    [w / 0x100_0000, w / 0x1_0000 % 0x100, w / 0x100 % 0x100, w % 0x100]
  }

  function WordsBytes(ws: seq<word>): (r: seq<byte>)
    ensures |r| == 4 * |ws|
  {
    if ws == [] then [] else WordsBytes(ws[..|ws| - 1]) + WordBytes(ws[|ws| - 1])
  }

  /** `memcpy` of known bytes to an address range that does not wrap. */
  function Written(m: Space, a: nat, bytes: seq<byte>): (r: Space)
    requires a + |bytes| <= WORD
    ensures forall i :: 0 <= i < WORD ==> r[i] == if a <= i < a + |bytes| then bytes[i - a] else m[i]
  {
    m[..a] + bytes + m[a + |bytes|..]
  }

  lemma SameSlice(m: Space, at: nat, m': Space, a: nat, n: nat)
    requires at + n <= WORD && a + n <= WORD
    requires forall x :: a <= x < a + n ==> m'[x] == m[at + (x - a)]
    ensures m[at..at + n] == m'[a..a + n]
  {
  }

  lemma EqualSlices(m: seq<byte>, a: nat, m': seq<byte>, b: nat, n: nat)
    requires a + n <= |m| && b + n <= |m'| && m[a..a + n] == m'[b..b + n]
    ensures forall x :: b <= x < b + n ==> m'[x] == m[a + (x - b)]
  {
    forall x | b <= x < b + n ensures m'[x] == m[a + (x - b)] {
      assert m'[b..b + n][x - b] == m'[x] && m[a..a + n][x - b] == m[a + (x - b)];
    }
  }

  /** Equal bytes hold equal words. */
  lemma SameWordAt(m: Space, a: nat, m': Space, b: nat)
    requires a + 4 <= WORD && b + 4 <= WORD
    requires m'[b] == m[a] && m'[b + 1] == m[a + 1] && m'[b + 2] == m[a + 2] && m'[b + 3] == m[a + 3]
    ensures WordAt(m', b) == WordAt(m, a)
  {
  }

  lemma BigEndianOfWordBytes(w: word)
    ensures var b := WordBytes(w); BigEndian(b[0], b[1], b[2], b[3]) == w
  {
    var high, mid := w / 0x1_0000, w / 0x100;
    assert w / 0x100_0000 == high / 0x100 && high == mid / 0x100;
  }

  lemma WordAtWordBytes(m: Space, a: nat, w: word)
    requires a + 4 <= WORD && m[a..a + 4] == WordBytes(w)
    ensures WordAt(m, a) == w
  {
    BigEndianOfWordBytes(w);
    assert m[a..a + 4][0] == m[a] && m[a..a + 4][1] == m[a + 1] && m[a..a + 4][2] == m[a + 2]
           && m[a..a + 4][3] == m[a + 3];
  }

  /** Reading back word `i` of a stored list of words. */
  lemma {:induction false} WordAtWordsBytes(m: Space, a: nat, ws: seq<word>, i: nat)
    requires i < |ws| && a + 4 * |ws| <= WORD && m[a..a + 4 * |ws|] == WordsBytes(ws)
    ensures WordAt(m, a + 4 * i) == ws[i]
  {
    var n := |ws| - 1;
    var all := m[a..a + 4 * |ws|];
    assert all[..4 * n] == m[a..a + 4 * n] && all[4 * n..] == m[a + 4 * n..a + 4 * n + 4];
    if i == n {
      WordAtWordBytes(m, a + 4 * n, ws[n]);
    } else {
      WordAtWordsBytes(m, a, ws[..n], i);
    }
  }
}
