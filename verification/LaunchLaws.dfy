// source/loader/game_dol_loader.c, lines 47-91, and shared/dol.h: the staged header, sections and patches.

/** What `patch_dol` does, in terms of the header's fields, the sections' ranges and the patches' words. */
module LaunchLaws {
  import opened Bits
  import opened CStrings
  import opened Memory
  import opened Dol
  import opened Hooks
  import opened DvdHooks
  import opened LaunchSequence

  /** The first byte of a word is the most significant one. */
  lemma WordAtIs(m: Space, a: nat)
    requires a + 4 <= WORD
    ensures WordAt(m, a)
              == m[a] as int * 0x100_0000 + m[a + 1] as int * 0x1_0000 + m[a + 2] as int * 0x100 + m[a + 3] as int
  {
  }

  // ---- Memory patches ----

  lemma FourStored(m: Space, a: nat, b0: byte, b1: byte, b2: byte, b3: byte)
    requires a < WORD
    ensures var m' := m[Wrap(a) := b0][Wrap(a + 1) := b1][Wrap(a + 2) := b2][Wrap(a + 3) := b3];
            WordAt(m', a) == BigEndian(b0, b1, b2, b3)
  {
    assert Wrap(a) != Wrap(a + 1) && Wrap(a) != Wrap(a + 2) && Wrap(a) != Wrap(a + 3);
    assert Wrap(a + 1) != Wrap(a + 2) && Wrap(a + 1) != Wrap(a + 3) && Wrap(a + 2) != Wrap(a + 3);
  }

  lemma WordOfStore(m: Space, a: nat, w: word)
    requires a < WORD
    ensures WordAt(WordStored(m, a, w), a) == w
  {
    var b := WordBytes(w);
    FourStored(m, a, b[0], b[1], b[2], b[3]);
    BigEndianOfWordBytes(w);
  }

  /** A patch without an original word, or whose original word memory holds, stores its value. */
  lemma PatchStores(m: Space, p: MemoryPatch)
    requires p.original == None || p.original == Some(WordAt(m, p.addr))
    ensures WordAt(Patched(m, p), p.addr) == p.value
  {
    WordOfStore(m, p.addr, p.value);
  }

  /** A patch whose original word memory does not hold changes nothing. */
  lemma PatchSkips(m: Space, p: MemoryPatch)
    requires p.original != None && p.original != Some(WordAt(m, p.addr))
    ensures Patched(m, p) == m
  {
  }

  /** In the final memory: each of a list of independent patches has stored its value or left the game's word. */
  lemma FinalWord(m: Space, dol: nat, patches: seq<MemoryPatch>, p: MemoryPatch)
    requires PatchesIndependent(patches) && p in patches
    ensures var game := Loaded(m, dol);
            WordAt(AllPatched(game, patches), p.addr)
              == if p.original == None || p.original == Some(WordAt(game, p.addr)) then p.value
                 else WordAt(game, p.addr)
  {
    var game := Loaded(m, dol);
    ActsAloneOnWord(game, patches, p);
    if p.original == None || p.original == Some(WordAt(game, p.addr)) {
      PatchStores(game, p);
    } else {
      PatchSkips(game, p);
    }
  }

  lemma ActsAloneOnWord(m: Space, patches: seq<MemoryPatch>, p: MemoryPatch)
    requires PatchesIndependent(patches) && p in patches
    ensures WordAt(AllPatched(m, patches), p.addr) == WordAt(Patched(m, p), p.addr)
  {
    assert p.addr % 4 == 0 && p.addr + 4 <= WORD;
    forall a | p.addr <= a < p.addr + 4
      ensures AllPatched(m, patches)[a] == Patched(m, p)[a]
    {
      PatchActsAlone(m, patches, p, a);
      PatchedIs(m, p, a);
    }
    SameWord(Patched(m, p), AllPatched(m, patches), p.addr);
  }

  /** Patches are applied in their order: of unconditional patches of one word the last one stays. */
  lemma LastPatchStays(m: Space, patches: seq<MemoryPatch>, last: MemoryPatch)
    requires last.original == None
    ensures WordAt(AllPatched(m, patches + [last]), last.addr) == last.value
  {
    assert (patches + [last])[..|patches|] == patches;
    PatchStores(AllPatched(m, patches), last);
  }

  // ---- Where the game's bytes come from ----

  /** No section from number `from` up to number `to` covers the address. */
  predicate Uncovered(h: Header, from: nat, to: nat, a: nat)
    requires to <= |h.sections|
  {
    forall j :: from <= j < to ==> !(h.sections[j].addr <= a < h.sections[j].addr + h.sections[j].size)
  }

  lemma {:induction false} LaterUncovered(m: Space, h: Header, k: nat, n: nat, a: nat)
    requires NothingWraps(h) && k <= n <= |h.sections| && a < WORD && Uncovered(h, k, n, a)
    ensures LoadedByte(m, h, n, a) == LoadedByte(m, h, k, a)
  {
    if k < n {
      assert NoWrap(h.sections[n - 1]);
      LaterUncovered(m, h, k, n - 1, a);
    }
  }

  /** A byte of the last section that covers it comes from that section's staged bytes. */
  lemma SectionByteLands(m: Space, h: Header, dol: nat, k: nat, a: nat)
    requires h == HeaderAt(m, dol) && StagingSafe(h, dol) && k < SECTION_COUNT && a < WORD
    requires h.sections[k].addr <= a < h.sections[k].addr + h.sections[k].size && Uncovered(h, k + 1, SECTION_COUNT, a)
    ensures 0 <= h.sections[k].src + (a - h.sections[k].addr) < WORD
    ensures Loaded(m, dol)[a] == m[h.sections[k].src + (a - h.sections[k].addr)]
  {
    assert NoWrap(h.sections[k]);
    LoadedIs(m, dol, a);
    LaterUncovered(m, h, k + 1, SECTION_COUNT, a);
  }

  /** A byte of BSS that no section covers is zero. */
  lemma BssByteIsZero(m: Space, h: Header, dol: nat, a: nat)
    requires h == HeaderAt(m, dol) && StagingSafe(h, dol) && a < WORD
    requires h.bssAddr <= a < h.bssAddr + h.bssSize && Uncovered(h, 0, SECTION_COUNT, a)
    ensures Loaded(m, dol)[a] == 0
  {
    LoadedIs(m, dol, a);
    LaterUncovered(m, h, 0, SECTION_COUNT, a);
  }

  /** All others stay. */
  lemma OtherByteStays(m: Space, h: Header, dol: nat, a: nat)
    requires h == HeaderAt(m, dol) && StagingSafe(h, dol) && a < WORD
    requires !(h.bssAddr <= a < h.bssAddr + h.bssSize) && Uncovered(h, 0, SECTION_COUNT, a)
    ensures Loaded(m, dol)[a] == m[a]
  {
    LoadedIs(m, dol, a);
    LaterUncovered(m, h, 0, SECTION_COUNT, a);
  }

  // ---- The header's layout ----

  /**
   * A header is 57 words: 18 file offsets, 18 addresses, 18 sizes, and then the address and size of BSS and the entry
   * point. The offsets count from the header.
   */
  lemma HeaderReadsBack(m: Space, dol: nat, offsets: seq<word>, addrs: seq<word>, sizes: seq<word>, rest: seq<word>,
                        ws: seq<word>, k: nat)
    requires |offsets| == |addrs| == |sizes| == 18 && |rest| == 3 && ws == offsets + addrs + sizes + rest && k < 18
    requires dol + 228 <= WORD && m[dol..dol + 228] == WordsBytes(ws)
    ensures var h := HeaderAt(m, dol);
            && h.bssAddr == rest[0] && h.bssSize == rest[1]
            && |h.sections| == 18 && h.sections[k].addr == addrs[k] && h.sections[k].size == sizes[k]
            && h.sections[k].src == (dol + offsets[k]) % 0x1_0000_0000
  {
    HeaderFields(m, dol, ws, k);
    WordsOfHeader(offsets, addrs, sizes, rest, ws, k);
  }

  lemma WordsOfHeader(offsets: seq<word>, addrs: seq<word>, sizes: seq<word>, rest: seq<word>, ws: seq<word>, k: nat)
    requires |offsets| == |addrs| == |sizes| == 18 && |rest| == 3 && ws == offsets + addrs + sizes + rest && k < 18
    ensures ws[k] == offsets[k] && ws[18 + k] == addrs[k] && ws[36 + k] == sizes[k]
    ensures ws[54] == rest[0] && ws[55] == rest[1]
  {
  }

  lemma HeaderFields(m: Space, dol: nat, ws: seq<word>, k: nat)
    requires |ws| == 57 && dol + 228 <= WORD && m[dol..dol + 228] == WordsBytes(ws) && k < 18
    ensures HeaderAt(m, dol).bssAddr == ws[54] && HeaderAt(m, dol).bssSize == ws[55]
    ensures SectionAt(m, dol, k) == Section(Wrap(dol + ws[k]), ws[18 + k], ws[36 + k])
  {
    HeaderWordAt(m, dol, ws, 54, dol + 216);
    HeaderWordAt(m, dol, ws, 55, dol + 220);
    SectionFields(m, dol, ws, k);
  }

  lemma SectionFields(m: Space, dol: nat, ws: seq<word>, k: nat)
    requires |ws| == 57 && dol + 228 <= WORD && m[dol..dol + 228] == WordsBytes(ws) && k < 18
    ensures SectionAt(m, dol, k) == Section(Wrap(dol + ws[k]), ws[18 + k], ws[36 + k])
  {
    HeaderWordAt(m, dol, ws, k, dol + (4 * k));
    HeaderWordAt(m, dol, ws, 18 + k, dol + (72 + 4 * k));
    HeaderWordAt(m, dol, ws, 36 + k, dol + (144 + 4 * k));
    SectionFrom(m, dol, k, ws[k], ws[18 + k], ws[36 + k]);
  }

  lemma SectionFrom(m: Space, dol: nat, k: nat, offset: word, addr: word, size: word)
    requires WordAt(m, dol + (4 * k)) == offset && WordAt(m, dol + (72 + 4 * k)) == addr
    requires WordAt(m, dol + (144 + 4 * k)) == size
    ensures SectionAt(m, dol, k) == Section(Wrap(dol + offset), addr, size)
  {
  }

  lemma HeaderWordAt(m: Space, dol: nat, ws: seq<word>, i: nat, a: nat)
    requires |ws| == 57 && i < 57 && dol + 228 <= WORD && m[dol..dol + 228] == WordsBytes(ws) && a == dol + 4 * i
    ensures WordAt(m, a) == ws[i]
  {
    WordAtWordsBytes(m, dol, ws, i);
  }

  // ---- The game's first memory ----

  /** Loader.pul stands at its real address, byte for byte, where no patch falls on it. */
  lemma {:induction false} LoaderStands(m: Space, h: Header, dol: nat, rg: Region, k: nat, addr: word, at: nat,
                                        file: seq<byte>, patches: seq<MemoryPatch>, i: nat)
    requires h == HeaderAt(m, dol) && WellLaidOut(h, dol) && AllFit(h, dol, HooksFor(rg))
    requires FileFits(h, k, addr, |file|, at, HooksFor(rg)) && i < |file|
    requires PatchesIndependent(patches)
    requires forall j :: 0 <= j < |patches| ==> !(patches[j].addr <= addr + i < patches[j].addr + 4)
    ensures at + |file| <= WORD && AllHookedStaged(m, dol, HooksFor(rg)).Some?
    ensures FirstMemory(m, dol, rg, at, file, patches)[addr + i] == file[i]
  {
    var hooked := HookedMemory(m, h, dol, HooksFor(rg), k, addr, at, file);
    LoaderByte(hooked, h, dol, k, addr, at, file, patches, i);
  }

  lemma HookedMemory(m: Space, h: Header, dol: nat, hooks: seq<Hook>, k: nat, addr: word, at: nat, file: seq<byte>)
    returns (hooked: Space)
    requires h == HeaderAt(m, dol) && WellLaidOut(h, dol) && AllFit(h, dol, hooks)
    requires FileFits(h, k, addr, |file|, at, hooks)
    ensures AllHookedStaged(m, dol, hooks) == Some(hooked) && HeaderAt(hooked, dol) == h
    ensures StagedAt(h, k, addr, |file|, at) && at + |file| <= WORD && addr + |file| <= WORD
  {
    HooksAndFileSwap(m, h, dol, hooks, k, addr, at, file);
    hooked := AllHookedStaged(m, dol, hooks).value;
    FileKeepsHeader(m, h, dol, k, addr, at, file);
  }

  lemma {:induction false} LoaderByte(hooked: Space, h: Header, dol: nat, k: nat, addr: word, at: nat,
                                      file: seq<byte>, patches: seq<MemoryPatch>, i: nat)
    requires h == HeaderAt(hooked, dol) && WellLaidOut(h, dol) && StagedAt(h, k, addr, |file|, at) && i < |file|
    requires at + |file| <= WORD && addr + |file| <= WORD && PatchesIndependent(patches)
    requires forall j :: 0 <= j < |patches| ==> !(patches[j].addr <= addr + i < patches[j].addr + 4)
    ensures AllPatched(Loaded(Written(hooked, at, file), dol), patches)[addr + i] == file[i]
  {
    FileByteLands(hooked, h, dol, k, addr, at, file, i);
    UnpatchedThere(Loaded(Written(hooked, at, file), dol), patches, addr + i);
  }

  lemma {:induction false} UnpatchedThere(m: Space, patches: seq<MemoryPatch>, a: nat)
    requires PatchesIndependent(patches) && a < WORD
    requires forall j :: 0 <= j < |patches| ==> !(patches[j].addr <= a < patches[j].addr + 4)
    ensures AllPatched(m, patches)[a] == m[a]
  {
    forall j | 0 <= j < |patches| ensures patches[j].addr != a - a % 4 {
      assert a - a % 4 <= a < a - a % 4 + 4;
    }
    UnpatchedByte(m, patches, a);
  }

  lemma FileByteLands(hooked: Space, h: Header, dol: nat, k: nat, addr: word, at: nat, file: seq<byte>, i: nat)
    requires h == HeaderAt(hooked, dol) && WellLaidOut(h, dol) && StagedAt(h, k, addr, |file|, at) && i < |file|
    ensures at + |file| <= WORD && addr + |file| <= WORD
    ensures Loaded(Written(hooked, at, file), dol)[addr + i] == file[i]
  {
    TargetIsNotStaged(h, dol, k, addr, |file|, at, addr + i);
    StagedWriteCommutes(hooked, h, dol, k, addr, file, at);
    ByteWritten(Loaded(hooked, dol), addr, file, i);
    AgreeThere(h, dol, Loaded(Written(hooked, at, file), dol), Written(Loaded(hooked, dol), addr, file), addr + i);
  }

  lemma TargetIsNotStaged(h: Header, dol: nat, k: nat, addr: nat, n: nat, at: nat, a: nat)
    requires WellLaidOut(h, dol) && StagedAt(h, k, addr, n, at) && addr <= a < addr + n
    ensures a < WORD && !Staged(h, dol, a)
  {
    assert InTarget(h.sections[k], a);
    assert Overwritten(h, a);
  }

  lemma ByteWritten(m: Space, addr: nat, file: seq<byte>, i: nat)
    requires addr + |file| <= WORD && i < |file|
    ensures Written(m, addr, file)[addr + i] == file[i]
  {
  }

  lemma AgreeThere(h: Header, dol: nat, m: Space, m': Space, a: nat)
    requires AgreeOutside(h, dol, m, m') && a < WORD && !Staged(h, dol, a)
    ensures m[a] == m'[a]
  {
  }

  /** An unconditional patch has stored its value. */
  lemma PatchStands(m: Space, dol: nat, rg: Region, at: nat, file: seq<byte>, patches: seq<MemoryPatch>, p: MemoryPatch)
    requires AllHookedStaged(m, dol, HooksFor(rg)).Some? && at + |file| <= WORD
    requires PatchesIndependent(patches) && p in patches && p.original == None
    ensures WordAt(FirstMemory(m, dol, rg, at, file, patches), p.addr) == p.value
  {
    FinalWord(Written(AllHookedStaged(m, dol, HooksFor(rg)).value, at, file), dol, patches, p);
  }
}
