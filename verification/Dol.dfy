// source/loader/game_dol_loader.c: the final steps before the game starts.

/** BSS zeroing, section copying and memory patching over the whole address space, the header being read as it goes. */
module Dol {
  import opened Bits
  import opened CStrings
  import opened Memory

  const SECTION_COUNT: nat := 18
  const HEADER_SIZE: nat := 228

  /** One section: where its bytes are staged, where they belong, how many. */
  datatype Section = Section(src: nat, addr: nat, size: nat)

  datatype MemoryPatch = MemoryPatch(addr: word, value: word, original: Option<word>)

  function SectionAt(m: Space, dol: nat, k: nat): Section {
    Section(Wrap(dol + WordAt(m, dol + (4 * k))), WordAt(m, dol + (72 + 4 * k)), WordAt(m, dol + (144 + 4 * k)))
  }

  datatype Header = Header(sections: seq<Section>, bssAddr: nat, bssSize: nat)

  /** The header as it stands in memory at this moment. */
  function HeaderAt(m: Space, dol: nat): (h: Header)
    ensures |h.sections| == SECTION_COUNT
    ensures forall k :: 0 <= k < SECTION_COUNT ==> h.sections[k] == SectionAt(m, dol, k)
  {
    Header(seq(SECTION_COUNT, k requires 0 <= k < SECTION_COUNT => SectionAt(m, dol, k)),
           WordAt(m, dol + 216), WordAt(m, dol + 220))
  }

  function Zeroed(m: Space, from: nat, to: nat): (r: Space) {
    seq(WORD, i requires 0 <= i < WORD => if from <= i < to then 0 else m[i])
  }

  /** Byte by byte, upwards, as the source copies: overlapping ranges see the bytes already written. */
  function Copied(m: Space, to: nat, from: nat, n: nat): Space {
    if n == 0 then m
    else
      var before := Copied(m, to, from, n - 1);
      before[Wrap(to + n - 1) := before[Wrap(from + n - 1)]]
  }

  function BssCleared(m: Space, dol: nat): Space {
    var h := HeaderAt(m, dol);
    Zeroed(m, h.bssAddr, Wrap(h.bssAddr + h.bssSize))
  }

  function SectionCopied(m: Space, dol: nat, k: nat): Space
    requires k < SECTION_COUNT
  {
    var s := HeaderAt(m, dol).sections[k];
    Copied(m, s.addr, s.src, s.size)
  }

  function SectionsCopied(m: Space, dol: nat, k: nat): Space
    requires k <= SECTION_COUNT
  {
    if k == 0 then m
    else
      SectionCopied(SectionsCopied(m, dol, k - 1), dol, k - 1)
  }

  /** Memory once BSS is cleared and every section copied. */
  function Loaded(m: Space, dol: nat): Space {
    SectionsCopied(BssCleared(m, dol), dol, SECTION_COUNT)
  }

  /** `patch_dol` stores the value over this word: there is no original word, or this is it. */
  predicate AppliesTo(p: MemoryPatch, w: word) {
    p.original.None? || p.original.value == w
  }

  predicate PatchApplies(m: Space, p: MemoryPatch) {
    AppliesTo(p, WordAt(m, p.addr))
  }

  function WordStored(m: Space, a: nat, w: word): Space {
    var b := WordBytes(w);
    m[Wrap(a) := b[0]][Wrap(a + 1) := b[1]][Wrap(a + 2) := b[2]][Wrap(a + 3) := b[3]]
  }

  function Patched(m: Space, p: MemoryPatch): Space {
    if PatchApplies(m, p) then WordStored(m, p.addr, p.value) else m
  }

  function AllPatched(m: Space, patches: seq<MemoryPatch>): Space {
    if patches == [] then m
    else Patched(AllPatched(m, patches[..|patches| - 1]), patches[|patches| - 1])
  }

  /** `patch_dol`, up to the jump to the entry point. */
  method PatchDol(mem: array<byte>, dol: nat, patches: seq<MemoryPatch>)
    requires mem.Length == WORD
    modifies mem
    ensures mem[..] == AllPatched(Loaded(old(mem[..]), dol), patches)
  {
    ClearBss(mem, dol);
    CopySections(mem, dol, SECTION_COUNT);
    ApplyPatches(mem, patches);
  }

  method CopySections(mem: array<byte>, dol: nat, count: nat)
    requires mem.Length == WORD && count <= SECTION_COUNT
    modifies mem
    ensures mem[..] == SectionsCopied(old(mem[..]), dol, count)
  {
    ghost var start: Space := mem[..];
    NoSection(start, dol);
    for k := 0 to count
      invariant SectionsDone(start, dol, k, mem[..])
    {
      CopyNextSection(mem, dol, k, start);
    }
  }

  /** Memory with the first `k` sections copied. */
  ghost predicate SectionsDone(start: Space, dol: nat, k: nat, m: seq<byte>) {
    k <= SECTION_COUNT && m == SectionsCopied(start, dol, k)
  }

  lemma NoSection(start: Space, dol: nat)
    ensures SectionsDone(start, dol, 0, start)
  {
  }

  method CopyNextSection(mem: array<byte>, dol: nat, k: nat, ghost start: Space)
    requires mem.Length == WORD && k < SECTION_COUNT && SectionsDone(start, dol, k, mem[..])
    modifies mem
    ensures SectionsDone(start, dol, k + 1, mem[..])
  {
    ghost var before: Space := mem[..];
    CopySection(mem, dol, k);
    OneMoreSection(start, before, mem[..], dol, k);
  }

  lemma OneMoreSection(start: Space, before: Space, m: Space, dol: nat, k: nat)
    requires k < SECTION_COUNT && before == SectionsCopied(start, dol, k) && m == SectionCopied(before, dol, k)
    ensures m == SectionsCopied(start, dol, k + 1)
  {
  }

  method ApplyPatches(mem: array<byte>, patches: seq<MemoryPatch>)
    requires mem.Length == WORD
    modifies mem
    ensures mem[..] == AllPatched(old(mem[..]), patches)
  {
    var i := 0;
    while i < |patches|
      invariant 0 <= i <= |patches|
      invariant mem[..] == AllPatched(old(mem[..]), patches[..i])
    {
      assert patches[..i + 1][..i] == patches[..i];
      ApplyPatch(mem, patches[i]);
      i := i + 1;
    }
    assert patches[..i] == patches;
  }

  method ClearBss(mem: array<byte>, dol: nat)
    requires mem.Length == WORD
    modifies mem
    ensures mem[..] == BssCleared(old(mem[..]), dol)
  {
    var h := HeaderAt(mem[..], dol);
    ClearRange(mem, h.bssAddr, Wrap(h.bssAddr + h.bssSize));
  }

  /** The byte loop; it does nothing when the end of BSS wrapped below its start. */
  method ClearRange(mem: array<byte>, start: nat, end: nat)
    requires mem.Length == WORD && start < WORD && end < WORD
    modifies mem
    ensures mem[..] == Zeroed(old(mem[..]), start, end)
  {
    var bss := start;
    while bss < end
      invariant start <= bss && (bss <= end || bss == start)
      invariant forall i :: 0 <= i < WORD ==> mem[i] == if start <= i < bss then 0 else old(mem[i])
    {
      mem[bss] := 0;
      bss := bss + 1;
    }
  }

  method CopySection(mem: array<byte>, dol: nat, k: nat)
    requires mem.Length == WORD && k < SECTION_COUNT
    modifies mem
    ensures mem[..] == SectionCopied(old(mem[..]), dol, k)
  {
    var s := HeaderAt(mem[..], dol).sections[k];
    CopyBytes(mem, s.addr, s.src, s.size);
  }

  method CopyBytes(mem: array<byte>, to: nat, from: nat, size: nat)
    requires mem.Length == WORD
    modifies mem
    ensures mem[..] == Copied(old(mem[..]), to, from, size)
  {
    var i := 0;
    while i < size
      invariant 0 <= i <= size
      invariant mem[..] == Copied(old(mem[..]), to, from, i)
    {
      mem[Wrap(to + i)] := mem[Wrap(from + i)];
      i := i + 1;
    }
  }

  method ApplyPatch(mem: array<byte>, patch: MemoryPatch)
    requires mem.Length == WORD
    modifies mem
    ensures mem[..] == Patched(old(mem[..]), patch)
  {
    var value := WordAt(mem[..], patch.addr);
    if patch.original.Some? && patch.original.value != value {
      return;
    }
    var b := WordBytes(patch.value);
    mem[patch.addr] := b[0];
    mem[Wrap(patch.addr + 1)] := b[1];
    mem[Wrap(patch.addr + 2)] := b[2];
    mem[Wrap(patch.addr + 3)] := b[3];
  }

  // ---- What the sequence of writes amounts to. ----

  predicate InTarget(s: Section, a: nat) { s.addr <= a < s.addr + s.size }

  predicate InSource(s: Section, a: nat) { s.src <= a < s.src + s.size }

  predicate InBss(h: Header, a: nat) { h.bssAddr <= a < h.bssAddr + h.bssSize }

  predicate InHeader(dol: nat, a: nat) { dol <= a < dol + HEADER_SIZE }

  /** Part of the staged file: the header, or the staged bytes of a section. */
  predicate Staged(h: Header, dol: nat, a: nat) {
    InHeader(dol, a) || exists k :: 0 <= k < |h.sections| && InSource(h.sections[k], a)
  }

  predicate Overwritten(h: Header, a: nat) {
    InBss(h, a) || exists k :: 0 <= k < |h.sections| && InTarget(h.sections[k], a)
  }

  predicate NoWrap(s: Section) { s.src + s.size <= WORD && s.addr + s.size < WORD }

  predicate NothingWraps(h: Header) {
    h.bssAddr + h.bssSize < WORD && forall k :: 0 <= k < |h.sections| ==> NoWrap(h.sections[k])
  }

  /** No range wraps, and neither BSS nor any section lands on the staged file. */
  ghost predicate StagingSafe(h: Header, dol: nat) {
    && dol + HEADER_SIZE <= WORD
    && NothingWraps(h)
    && (forall a :: 0 <= a < WORD && Staged(h, dol, a) ==> !Overwritten(h, a))
  }

  /** One section laid over what is below it. */
  function Overlaid(m: Space, s: Section, below: byte, a: nat): byte
    requires NoWrap(s) && a < WORD
  {
    if InTarget(s, a) then m[s.src + (a - s.addr)] else below
  }

  /**
   * The byte at `a` once the first `k` sections are in place: the last covering section's, else zero in BSS, else as
   * before.
   */
  function LoadedByte(m: Space, h: Header, k: nat, a: nat): byte
    requires a < WORD && k <= |h.sections| && NothingWraps(h)
  {
    if k == 0 then if InBss(h, a) then 0 else m[a]
    else Overlaid(m, h.sections[k - 1], LoadedByte(m, h, k - 1, a), a)
  }

  lemma CopyStep(m: Space, to: nat, from: nat, n: nat)
    requires 0 < n && to + n <= WORD && from + n <= WORD
    ensures var before := Copied(m, to, from, n - 1);
            Copied(m, to, from, n) == before[to + n - 1 := before[from + n - 1]]
  {
  }

  /** Copying from a range the copy does not touch is a block copy. */
  lemma {:induction false} CopiedByte(m: Space, to: nat, from: nat, n: nat, a: nat)
    requires to + n <= WORD && from + n <= WORD && a < WORD
    requires from + n <= to || to + n <= from || n == 0
    ensures Copied(m, to, from, n)[a] == if to <= a < to + n then m[from + (a - to)] else m[a]
  {
    if n > 0 {
      CopyStep(m, to, from, n);
      if a == to + n - 1 {
        CopiedByte(m, to, from, n - 1, from + n - 1);
      } else {
        CopiedByte(m, to, from, n - 1, a);
      }
    }
  }

  /** The header depends on its own bytes only. */
  lemma SameHeader(m: Space, m': Space, dol: nat)
    requires dol + HEADER_SIZE <= WORD
    requires forall a :: 0 <= a < WORD && InHeader(dol, a) ==> m'[a] == m[a]
    ensures HeaderAt(m', dol) == HeaderAt(m, dol)
  {
    HeaderWord(m, m', dol, 216);
    HeaderWord(m, m', dol, 220);
    forall k | 0 <= k < SECTION_COUNT
      ensures SectionAt(m', dol, k) == SectionAt(m, dol, k)
    {
      SameSection(m, m', dol, k);
    }
    assert HeaderAt(m', dol).sections == HeaderAt(m, dol).sections;
  }

  lemma SameSection(m: Space, m': Space, dol: nat, k: nat)
    requires dol + HEADER_SIZE <= WORD && k < SECTION_COUNT
    requires forall a :: 0 <= a < WORD && InHeader(dol, a) ==> m'[a] == m[a]
    ensures SectionAt(m', dol, k) == SectionAt(m, dol, k)
  {
    var src, addr, size := 4 * k, 72 + 4 * k, 144 + 4 * k;
    HeaderWord(m, m', dol, src);
    HeaderWord(m, m', dol, addr);
    HeaderWord(m, m', dol, size);
    SameThreeWords(m, m', dol, k, dol + src, dol + addr, dol + size);
  }

  lemma SameThreeWords(m: Space, m': Space, dol: nat, k: nat, a: nat, b: nat, c: nat)
    requires a == dol + 4 * k && b == dol + (72 + 4 * k) && c == dol + (144 + 4 * k)
    requires WordAt(m', a) == WordAt(m, a) && WordAt(m', b) == WordAt(m, b) && WordAt(m', c) == WordAt(m, c)
    ensures SectionAt(m', dol, k) == SectionAt(m, dol, k)
  {
  }

  lemma HeaderWord(m: Space, m': Space, dol: nat, off: nat)
    requires dol + HEADER_SIZE <= WORD && off + 4 <= HEADER_SIZE
    requires forall a :: 0 <= a < WORD && InHeader(dol, a) ==> m'[a] == m[a]
    ensures WordAt(m', dol + off) == WordAt(m, dol + off)
  {
    var a := dol + off;
    assert m'[a] == m[a] && m'[a + 1] == m[a + 1] && m'[a + 2] == m[a + 2] && m'[a + 3] == m[a + 3];
  }

  lemma {:induction false} StagedByteKept(m: Space, h: Header, dol: nat, k: nat, a: nat)
    requires StagingSafe(h, dol) && k <= |h.sections| && a < WORD && Staged(h, dol, a)
    ensures LoadedByte(m, h, k, a) == m[a]
  {
    assert !Overwritten(h, a);
    if k > 0 {
      StagedByteKept(m, h, dol, k - 1, a);
    }
  }

  ghost predicate StagedFileIn(m: Space, h: Header, dol: nat, later: Space) {
    forall b :: 0 <= b < WORD && Staged(h, dol, b) ==> later[b] == m[b]
  }

  /** The staged bytes of a section and the place they go to do not overlap. */
  lemma SourceAndTargetApart(h: Header, dol: nat, k: nat)
    requires StagingSafe(h, dol) && k < |h.sections|
    ensures NoWrap(h.sections[k])
    ensures var s := h.sections[k]; s.size == 0 || s.src + s.size <= s.addr || s.addr + s.size <= s.src
  {
    var s := h.sections[k];
    assert NoWrap(s);
    if s.size > 0 && s.src < s.addr + s.size && s.addr < s.src + s.size {
      var b := if s.src < s.addr then s.addr else s.src;
      assert InSource(s, b) && InTarget(s, b);
      assert Staged(h, dol, b) && Overwritten(h, b);
    }
  }

  /** Copying section `k` when the staged file still stands as it did in `m`. */
  lemma SectionCopiedByte(m: Space, h: Header, dol: nat, before: Space, k: nat, a: nat)
    requires h == HeaderAt(m, dol) && StagingSafe(h, dol) && k < SECTION_COUNT && a < WORD
    requires StagedFileIn(m, h, dol, before)
    ensures NoWrap(h.sections[k])
    ensures SectionCopied(before, dol, k)[a] == Overlaid(m, h.sections[k], before[a], a)
  {
    SameHeader(m, before, dol);
    SourceAndTargetApart(h, dol, k);
    BlockCopiedByte(m, h, dol, before, h.sections[k], k, a);
  }

  lemma BlockCopiedByte(m: Space, h: Header, dol: nat, before: Space, s: Section, k: nat, a: nat)
    requires k < |h.sections| && s == h.sections[k] && NoWrap(s) && a < WORD
    requires s.size == 0 || s.src + s.size <= s.addr || s.addr + s.size <= s.src
    requires StagedFileIn(m, h, dol, before)
    ensures Copied(before, s.addr, s.src, s.size)[a] == Overlaid(m, s, before[a], a)
  {
    CopiedByte(before, s.addr, s.src, s.size, a);
    if InTarget(s, a) {
      var b := s.src + (a - s.addr);
      assert InSource(s, b);
      assert Staged(h, dol, b);
    }
  }

  /** Sections never disturb the staged file, so the header read in each round is the one the launcher staged. */
  lemma {:induction false} SectionsCopiedByte(m: Space, h: Header, dol: nat, cleared: Space, k: nat, a: nat)
    requires h == HeaderAt(m, dol) && StagingSafe(h, dol) && k <= SECTION_COUNT && a < WORD
    requires forall b :: 0 <= b < WORD ==> cleared[b] == LoadedByte(m, h, 0, b)
    ensures SectionsCopied(cleared, dol, k)[a] == LoadedByte(m, h, k, a)
    decreases k, 0
  {
    if k > 0 {
      var before := SectionsCopied(cleared, dol, k - 1);
      StagedFileStands(m, h, dol, cleared, k - 1);
      SectionsCopiedByte(m, h, dol, cleared, k - 1, a);
      SectionCopiedByte(m, h, dol, before, k - 1, a);
    }
  }

  lemma {:induction false} StagedFileStands(m: Space, h: Header, dol: nat, cleared: Space, k: nat)
    requires h == HeaderAt(m, dol) && StagingSafe(h, dol) && k <= SECTION_COUNT
    requires forall b :: 0 <= b < WORD ==> cleared[b] == LoadedByte(m, h, 0, b)
    ensures StagedFileIn(m, h, dol, SectionsCopied(cleared, dol, k))
    decreases k, 1
  {
    forall b | 0 <= b < WORD && Staged(h, dol, b)
      ensures SectionsCopied(cleared, dol, k)[b] == m[b]
    {
      SectionsCopiedByte(m, h, dol, cleared, k, b);
      StagedByteKept(m, h, dol, k, b);
    }
  }

  /** The memory the game starts from, before memory patches. */
  lemma LoadedIs(m: Space, dol: nat, a: nat)
    requires StagingSafe(HeaderAt(m, dol), dol) && a < WORD
    ensures Loaded(m, dol)[a] == LoadedByte(m, HeaderAt(m, dol), SECTION_COUNT, a)
  {
    SectionsCopiedByte(m, HeaderAt(m, dol), dol, BssCleared(m, dol), SECTION_COUNT, a);
  }

  // ---- Memory patches at distinct aligned addresses. ----

  predicate PatchesIndependent(patches: seq<MemoryPatch>) {
    && (forall i :: 0 <= i < |patches| ==> patches[i].addr % 4 == 0)
    && (forall i, j :: 0 <= i < j < |patches| ==> patches[i].addr != patches[j].addr)
  }

  /** What one patch makes of the byte at `a`, looking at memory `m`. */
  function PatchedByte(m: Space, p: MemoryPatch, a: nat): byte
    requires a < WORD
  {
    if a - a % 4 == p.addr && PatchApplies(m, p) then WordBytes(p.value)[a % 4] else m[a]
  }

  lemma PatchedIs(m: Space, p: MemoryPatch, a: nat)
    requires p.addr % 4 == 0 && a < WORD
    ensures Patched(m, p)[a] == PatchedByte(m, p, a)
  {
    assert p.addr + 3 < WORD;
  }

  lemma SameWord(m: Space, m': Space, a: nat)
    requires a + 4 <= WORD && (forall i :: a <= i < a + 4 ==> m'[i] == m[i])
    ensures WordAt(m', a) == WordAt(m, a)
  {
  }

  /** A patch of an independent list has its effect as if it were applied alone to the original memory. */
  lemma {:induction false} PatchActsAlone(m: Space, patches: seq<MemoryPatch>, p: MemoryPatch, a: nat)
    requires PatchesIndependent(patches) && p in patches && a < WORD && a - a % 4 == p.addr
    ensures AllPatched(m, patches)[a] == PatchedByte(m, p, a)
  {
    var front, last := patches[..|patches| - 1], patches[|patches| - 1];
    PatchedIs(AllPatched(m, front), last, a);
    FrontIndependent(patches, front, last);
    if p == last {
      LastActsAlone(m, front, p, a);
    } else {
      PatchActsAlone(m, front, p, a);
    }
  }

  lemma FrontIndependent(patches: seq<MemoryPatch>, front: seq<MemoryPatch>, last: MemoryPatch)
    requires PatchesIndependent(patches) && patches == front + [last]
    ensures PatchesIndependent(front) && last.addr % 4 == 0
    ensures forall i :: 0 <= i < |front| ==> front[i].addr != last.addr
  {
    assert forall i :: 0 <= i < |front| ==> front[i] == patches[i];
    assert patches[|front|] == last;
    forall i, j | 0 <= i < j < |front| ensures front[i].addr != front[j].addr {
      assert patches[i].addr != patches[j].addr;
    }
    forall i | 0 <= i < |front| ensures front[i].addr != last.addr {
      assert patches[i].addr != patches[|front|].addr;
    }
  }

  lemma LastActsAlone(m: Space, front: seq<MemoryPatch>, last: MemoryPatch, a: nat)
    requires PatchesIndependent(front) && last.addr % 4 == 0 && a < WORD && a - a % 4 == last.addr
    requires forall i :: 0 <= i < |front| ==> front[i].addr != last.addr
    ensures PatchedByte(AllPatched(m, front), last, a) == PatchedByte(m, last, a)
  {
    assert last.addr + 4 <= WORD;
    WordStillThere(m, front, last.addr);
  }

  lemma WordStillThere(m: Space, patches: seq<MemoryPatch>, addr: nat)
    requires PatchesIndependent(patches) && addr % 4 == 0 && addr + 4 <= WORD
    requires forall i :: 0 <= i < |patches| ==> patches[i].addr != addr
    ensures WordAt(AllPatched(m, patches), addr) == WordAt(m, addr)
    ensures forall b :: addr <= b < addr + 4 ==> AllPatched(m, patches)[b] == m[b]
  {
    forall b | addr <= b < addr + 4
      ensures AllPatched(m, patches)[b] == m[b]
    {
      UnpatchedByte(m, patches, b);
    }
    SameWord(m, AllPatched(m, patches), addr);
  }

  lemma {:induction false} UnpatchedByte(m: Space, patches: seq<MemoryPatch>, a: nat)
    requires PatchesIndependent(patches) && a < WORD
    requires forall i :: 0 <= i < |patches| ==> patches[i].addr != a - a % 4
    ensures AllPatched(m, patches)[a] == m[a]
  {
    if patches != [] {
      var n := |patches| - 1;
      UnpatchedByte(m, patches[..n], a);
      PatchedIs(AllPatched(m, patches[..n]), patches[n], a);
    }
  }

  /** Aligned patches at distinct addresses may be applied in any order. */
  lemma PatchOrderIrrelevant(m: Space, ps: seq<MemoryPatch>, qs: seq<MemoryPatch>)
    requires PatchesIndependent(ps) && PatchesIndependent(qs) && multiset(ps) == multiset(qs)
    ensures AllPatched(m, ps) == AllPatched(m, qs)
  {
    assert forall p :: p in ps <==> p in multiset(ps);
    assert forall q :: q in qs <==> q in multiset(qs);
    forall a | 0 <= a < WORD
      ensures AllPatched(m, ps)[a] == AllPatched(m, qs)[a]
    {
      if i :| 0 <= i < |ps| && ps[i].addr == a - a % 4 {
        PatchActsAlone(m, ps, ps[i], a);
        PatchActsAlone(m, qs, ps[i], a);
      } else {
        forall j | 0 <= j < |qs|
          ensures qs[j].addr != a - a % 4
        {
          assert qs[j] in ps;
        }
        UnpatchedByte(m, ps, a);
        UnpatchedByte(m, qs, a);
      }
    }
  }
}
