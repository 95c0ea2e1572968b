// source/console.c, lines 269-359: UTF-8 to ASCII transliteration, in place or into another buffer.

module AsciiSafe {
  import opened Bits
  import opened CStrings

  /** Bytes consumed from the text and the ASCII text that replaces them. */
  datatype Unit = Unit(consumed: nat, repl: string)

  /** The byte at `i`, or the terminating NUL. */
  function At(t: string, i: nat): char {
    if i < |t| then t[i] else '\0'
  }

  predicate IsContinuation(c: char) { 0x80 <= c as int < 0xC0 }

  /** The six low bits of a continuation byte. */
  function Low6(c: char): nat
    requires IsContinuation(c)
  {
    c as int - 0x80
  }

  function Replacement(codepoint: nat): (r: string)
    ensures 1 <= |r| <= 3 && (codepoint < 0x800 ==> |r| <= 2)
    ensures forall i :: 0 <= i < |r| ==> '\0' < r[i] < 0x80 as char
  {
    match codepoint
    case 0x00E4 => "ae"
    case 0x00C4 => "Ae"
    case 0x00F6 => "oe"
    case 0x00D6 => "Oe"
    case 0x00FC => "ue"
    case 0x00DC => "Ue"
    case 0x00DF => "ss"
    case 0x2013 => "-"
    case 0x2014 => "-"
    case 0x2018 => "'"
    case 0x2019 => "'"
    case 0x201C => "\""
    case 0x201D => "\""
    case 0x2026 => "..."
    case _ => "?"
  }

  /** Decodes one unit from its first byte and the three that follow; anything but a full sequence is one '?'. */
  function UnitOf(c0: char, c1: char, c2: char, c3: char): (u: Unit)
    requires c0 != '\0' && IsByte(c0)
    ensures 1 <= |u.repl| <= u.consumed <= 4
    ensures forall i :: 0 <= i < |u.repl| ==> '\0' < u.repl[i] < 0x80 as char
    ensures u.consumed > 1 ==> IsContinuation(c1)
    ensures u.consumed > 2 ==> IsContinuation(c2)
    ensures u.consumed > 3 ==> IsContinuation(c3)
  {
    var b := c0 as int;
    if b < 0x80 then Unit(1, [c0])
    else if 0xC0 <= b < 0xE0 && IsContinuation(c1) then
      Unit(2, Replacement((b - 0xC0) * 64 + Low6(c1)))
    else if 0xE0 <= b < 0xF0 && IsContinuation(c1) && IsContinuation(c2) then
      Unit(3, Replacement(((b - 0xE0) * 64 + Low6(c1)) * 64 + Low6(c2)))
    else if 0xF0 <= b < 0xF8 && IsContinuation(c1) && IsContinuation(c2) && IsContinuation(c3) then
      Unit(4, Replacement((((b - 0xF0) * 64 + Low6(c1)) * 64 + Low6(c2)) * 64 + Low6(c3)))
    else Unit(1, "?")
  }

  function UnitAt(t: string, i: nat): (u: Unit)
    requires IsText(t) && i < |t|
    ensures i + u.consumed <= |t|
  {
    UnitOf(t[i], At(t, i + 1), At(t, i + 2), At(t, i + 3))
  }

  /** The transliteration of the text from `i` on. */
  function Transliterated(t: string, i: nat): (r: string)
    requires IsText(t) && i <= |t|
    ensures forall k :: 0 <= k < |r| ==> '\0' < r[k] < 0x80 as char
    ensures |r| <= |t| - i
    decreases |t| - i
  {
    if i == |t| then []
    else
      var u := UnitAt(t, i);
      u.repl + Transliterated(t, i + u.consumed)
  }

  function Min(a: nat, b: nat): nat { if a < b then a else b }

  /**
   * `rrc_con_ascii_safe`. `out` may be `text` itself: the write cursor never passes the read cursor. The output
   * is as much of the transliteration of the original text as fits, NUL-terminated.
   */
  method ConvertToAscii(text: array<char>, len: nat, out: array<char>, outSize: nat)
    requires len < text.Length && text[len] == '\0' && IsText(text[..len])
    requires 0 < outSize <= out.Length
    modifies out
    ensures var t := Transliterated(old(text[..len]), 0);
            var n := Min(|t|, outSize - 1);
            && out[..n] == t[..n] && out[n] == '\0'
            && (forall i :: n < i < out.Length ==> out[i] == old(out[i]))
  {
    ghost var t0 := text[..len];
    var p, used := 0, 0;
    while text[p] != '\0' && used + 1 < outSize
      invariant p <= len && text[len] == '\0' && forall i :: p <= i < len ==> text[i] == t0[i]
      invariant used <= p && Progress(t0, p, out[..], used, outSize)
      invariant forall i :: used <= i < out.Length ==> out[i] == old(out[i])
      decreases len - p
    {
      assert p < len && text[p] == t0[p];
      p, used := TakeUnit(text, len, p, out, used, outSize, t0);
    }
    assert text[p] == '\0' ==> p == len;
    WholeWritten(t0, p, out[..], used, outSize);
    out[used] := '\0';
  }

  /** At the end of the text or of the buffer the output is complete. */
  lemma WholeWritten(t0: string, p: nat, out: seq<char>, used: nat, outSize: nat)
    requires IsText(t0) && p <= |t0| && Progress(t0, p, out, used, outSize) && (p == |t0| || used + 1 >= outSize)
    ensures var whole := Transliterated(t0, 0);
            used == Min(|whole|, outSize - 1) && used <= |out| && out[..used] == whole[..used]
  {
  }

  /**
   * The output so far is the beginning of the transliteration, all that the text before `p` gives unless it is full.
   */
  ghost predicate Progress(t0: string, p: nat, out: seq<char>, used: nat, outSize: nat)
    requires IsText(t0) && p <= |t0|
  {
    var whole := Transliterated(t0, 0);
    && used <= |out| && used <= |whole| && used < outSize && out[..used] == whole[..used]
    && (used + 1 < outSize ==> whole == whole[..used] + Transliterated(t0, p))
  }

  lemma MoreProgress(t0: string, p: nat, out: seq<char>, used: nat, outSize: nat, u: Unit, out': seq<char>, used': nat)
    requires IsText(t0) && p < |t0| && Progress(t0, p, out, used, outSize) && used + 1 < outSize && u == UnitAt(t0, p)
    requires used' == Min(used + |u.repl|, outSize - 1) && used' <= |out'|
             && out'[..used'] == out[..used] + u.repl[..used' - used]
    ensures Progress(t0, p + u.consumed, out', used', outSize)
  {
    WholeAfter(Transliterated(t0, 0), used, u.repl, Transliterated(t0, p + u.consumed), used');
  }

  /** One round of the loop: reads a unit and writes its replacement as far as there is room. */
  method TakeUnit(text: array<char>, len: nat, p: nat, out: array<char>, used: nat, outSize: nat, ghost t0: string)
    returns (p': nat, used': nat)
    requires p < len < text.Length && |t0| == len && IsText(t0) && text[len] == '\0'
    requires (forall i :: p <= i < len ==> text[i] == t0[i]) && used + 1 < outSize <= out.Length && used <= p
    requires Progress(t0, p, out[..], used, outSize)
    modifies out
    ensures p < p' <= len && used <= used' <= p' && Progress(t0, p', out[..], used', outSize)
    ensures forall i :: used' <= i < out.Length ==> out[i] == old(out[i])
    ensures forall i :: p' <= i <= len ==> text[i] == old(text[i])
  {
    ghost var before := out[..];
    var u := ReadUnit(text, len, p, t0);
    used' := Emit(out, used, u.repl, outSize);
    p' := p + u.consumed;
    MoreProgress(t0, p, before, used, outSize, u, out[..], used');
  }

  /** Copies a replacement to the write cursor, leaving room for the terminating NUL. */
  method Emit(out: array<char>, start: nat, repl: string, outSize: nat) returns (used: nat)
    requires start < outSize <= out.Length
    modifies out
    ensures used == Min(start + |repl|, outSize - 1)
    ensures out[..used] == old(out[..start]) + repl[..used - start]
    ensures forall k :: used <= k < out.Length ==> out[k] == old(out[k])
  {
    used := start;
    var i := 0;
    while i < |repl| && used + 1 < outSize
      invariant 0 <= i <= |repl| && used == start + i < outSize
      invariant out[..used] == old(out[..start]) + repl[..i]
      invariant forall k :: used <= k < out.Length ==> out[k] == old(out[k])
    {
      out[used] := repl[i];
      used, i := used + 1, i + 1;
    }
  }

  lemma WholeAfter(whole: string, start: nat, repl: string, rest: string, used: nat)
    requires start <= |whole| && whole == whole[..start] + (repl + rest) && start <= used <= start + |repl|
    ensures used <= |whole| && whole[..used] == whole[..start] + repl[..used - start]
    ensures used == start + |repl| ==> whole == whole[..used] + rest
  {
  }

  /** The unit at the read cursor, reading a byte only when the one before it was part of a sequence. */
  method ReadUnit(text: array<char>, len: nat, p: nat, ghost t0: string) returns (u: Unit)
    requires p < len < text.Length && |t0| == len && IsText(t0)
    requires text[len] == '\0' && forall i :: p <= i < len ==> text[i] == t0[i]
    ensures u == UnitAt(t0, p)
  {
    var c1 := text[p + 1];
    var c2 := if IsContinuation(c1) then text[p + 2] else '\0';
    var c3 := if IsContinuation(c1) && IsContinuation(c2) then text[p + 3] else '\0';
    u := UnitOf(text[p], c1, c2, c3);
  }

  // ---- The C expressions ----

  /** The masks and shifts of the source on bytes are the ranges and differences used above. */
  lemma MasksAreFields(c: nat, hi: nat, lo: nat)
    requires c < 256
    ensures And(c, 0xE0) == 0xC0 <==> 0xC0 <= c < 0xE0
    ensures And(c, 0xF0) == 0xE0 <==> 0xE0 <= c < 0xF0
    ensures And(c, 0xF8) == 0xF0 <==> 0xF0 <= c < 0xF8
    ensures And(c, 0xC0) == 0x80 <==> 0x80 <= c < 0xC0
    ensures 0xC0 <= c < 0xE0 ==> And(c, 0x1F) == c - 0xC0
    ensures 0xE0 <= c < 0xF0 ==> And(c, 0x0F) == c - 0xE0
    ensures 0xF0 <= c < 0xF8 ==> And(c, 0x07) == c - 0xF0
    ensures 0x80 <= c < 0xC0 ==> And(c, 0x3F) == c - 0x80
    ensures lo < 64 ==> Or(Shl(hi, 6), lo) == hi * 64 + lo
  {
    FieldRanges(c);
    MasksAreQuotients(c);
    if lo < 64 {
      Powers();
      OrFields(hi, lo, 6);
      ShlIsTimes(hi, 6);
    }
  }

  lemma FieldRanges(c: nat)
    requires c < 256
    ensures (c / 32 == 6 <==> 0xC0 <= c < 0xE0) && (c / 16 == 14 <==> 0xE0 <= c < 0xF0)
    ensures (c / 8 == 30 <==> 0xF0 <= c < 0xF8) && (c / 64 == 2 <==> 0x80 <= c < 0xC0)
  {
  }

  lemma MasksAreQuotients(c: nat)
    requires c < 256
    ensures And(c, 0xE0) == 0xC0 <==> c / 32 == 6
    ensures And(c, 0xF0) == 0xE0 <==> c / 16 == 14
    ensures And(c, 0xF8) == 0xF0 <==> c / 8 == 30
    ensures And(c, 0xC0) == 0x80 <==> c / 64 == 2
    ensures And(c, 0x1F) == c % 32 && And(c, 0x0F) == c % 16 && And(c, 0x07) == c % 8 && And(c, 0x3F) == c % 64
  {
    Powers();
    MaskIsField(c, 3, 5);
    MaskIsField(c, 4, 4);
    MaskIsField(c, 5, 3);
    MaskIsField(c, 2, 6);
    AndLow(c, 5);
    AndLow(c, 4);
    AndLow(c, 3);
    AndLow(c, 6);
  }

  lemma MaskIsField(c: nat, n: nat, k: nat)
    requires c < 256 && n + k == 8
    ensures And(c, Shl(Pow2(n) - 1, k)) == c / Pow2(k) * Pow2(k)
  {
    Powers();
    AndTop(c, n, k);
    ShiftedBack(c, k);
  }
}
