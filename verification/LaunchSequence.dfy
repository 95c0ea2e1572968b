// source/loader/loader.c, lines 178-277: hooks, then Loader.pul, both in the staged file, then patch_dol.

/** The whole launch sequence: with Loader.pul copied in between, the hooks still work and the code stands in place. */
module LaunchSequence {
  import opened Bits
  import opened CStrings
  import opened Memory
  import opened Ppc
  import opened Dol
  import opened Hooks
  import opened DvdHooks
  import opened PulsarLoader

  /** The range of the file lies in one section, apart from every hooked window. */
  ghost predicate FileFits(h: Header, k: nat, addr: nat, n: nat, at: nat, hooks: seq<Hook>) {
    && FirstCovering(h.sections, addr) == Some(k) && StagedAt(h, k, addr, n, at)
    && forall j :: 0 <= j < |hooks| ==> Apart(addr, n, hooks[j].addr, WINDOW)
  }

  lemma WrittenSwap(m: Space, a: nat, x: seq<byte>, b: nat, y: seq<byte>)
    requires a + |x| <= WORD && b + |y| <= WORD && Apart(a, |x|, b, |y|)
    ensures Written(Written(m, a, x), b, y) == Written(Written(m, b, y), a, x)
  {
  }

  lemma SliceApart(m: Space, a: nat, n: nat, b: nat, y: seq<byte>)
    requires a + n <= WORD && b + |y| <= WORD && Apart(a, n, b, |y|)
    ensures Written(m, b, y)[a..a + n] == m[a..a + n]
  {
  }

  /** Installing a hook and writing a file elsewhere may be done in either order. */
  lemma HookAndFileSwap(m: Space, hook: Hook, p: nat, at: nat, file: seq<byte>)
    requires HookOk(hook) && p + WINDOW <= WORD && at + |file| <= WORD
    requires Apart(p, WINDOW, at, |file|) && Apart(hook.trampoline, 2 * WINDOW, at, |file|)
    ensures HookedAt(Written(m, at, file), hook, p) == Written(HookedAt(m, hook, p), at, file)
  {
    var saved := m[p..p + WINDOW] + WordsBytes(hook.backjump);
    SliceApart(m, p, WINDOW, at, file);
    WrittenSwap(m, at, file, hook.trampoline, saved);
    WrittenSwap(Written(m, hook.trampoline, saved), at, file, p, WordsBytes(hook.toCustom));
  }

  /** A hooked function's staged window and trampoline are apart from the staged range of the file. */
  lemma StagedApart(h: Header, dol: nat, hook: Hook, j: nat, p: nat, k: nat, addr: nat, n: nat, at: nat)
    requires WellLaidOut(h, dol) && ClearOf(h, dol, hook.trampoline, 2 * WINDOW) && StagedAt(h, j, hook.addr, WINDOW, p)
    requires StagedAt(h, k, addr, n, at) && Apart(addr, n, hook.addr, WINDOW)
    ensures at + n <= WORD
    ensures Apart(p, WINDOW, at, n) && Apart(hook.trampoline, 2 * WINDOW, at, n)
  {
    if j != k {
      SourcesApart(h, dol, j, k);
    }
    TrampolineApart(h, dol, hook.trampoline, k, addr, n, at);
  }

  lemma SourcesApart(h: Header, dol: nat, j: nat, k: nat)
    requires WellLaidOut(h, dol) && j < |h.sections| && k < |h.sections| && j != k
    ensures Apart(h.sections[j].src, h.sections[j].size, h.sections[k].src, h.sections[k].size)
  {
    if k < j {
      assert Apart(h.sections[k].src, h.sections[k].size, h.sections[j].src, h.sections[j].size);
    }
  }

  lemma TrampolineApart(h: Header, dol: nat, t: nat, k: nat, addr: nat, n: nat, at: nat)
    requires ClearOf(h, dol, t, 2 * WINDOW) && StagedAt(h, k, addr, n, at)
    ensures Apart(t, 2 * WINDOW, at, n)
  {
    if t < at + n && at < t + 2 * WINDOW && n > 0 {
      var x := if t < at then at else t;
      assert InSource(h.sections[k], x);
      assert Staged(h, dol, x);
    }
  }

  /** The same for all hooks, the header being what it was. */
  lemma {:induction false} HooksAndFileSwap(m: Space, h: Header, dol: nat, hooks: seq<Hook>, k: nat, addr: nat, at: nat,
                                            file: seq<byte>)
    requires h == HeaderAt(m, dol) && WellLaidOut(h, dol) && AllFit(h, dol, hooks)
             && FileFits(h, k, addr, |file|, at, hooks)
    ensures HeaderAt(Written(m, at, file), dol) == h
    ensures AllHookedStaged(m, dol, hooks).Some? && HeaderAt(AllHookedStaged(m, dol, hooks).value, dol) == h
    ensures AllHookedStaged(Written(m, at, file), dol, hooks)
              == Some(Written(AllHookedStaged(m, dol, hooks).value, at, file))
  {
    FileKeepsHeader(m, h, dol, k, addr, at, file);
    AllHooksCommute(m, dol, hooks);
    if hooks != [] {
      var n := |hooks| - 1;
      HooksAndFileSwap(m, h, dol, hooks[..n], k, addr, at, file);
      var before := AllHookedStaged(m, dol, hooks[..n]).value;
      FileKeepsHeader(before, h, dol, k, addr, at, file);
      LastSwap(before, h, dol, hooks[n], k, addr, at, file);
    }
  }

  lemma FileKeepsHeader(m: Space, h: Header, dol: nat, k: nat, addr: nat, at: nat, file: seq<byte>)
    requires h == HeaderAt(m, dol) && WellLaidOut(h, dol) && StagedAt(h, k, addr, |file|, at)
    ensures at + |file| <= WORD && HeaderAt(Written(m, at, file), dol) == h
  {
    StagedWriteCommutes(m, h, dol, k, addr, file, at);
  }

  lemma LastSwap(m: Space, h: Header, dol: nat, hook: Hook, k: nat, addr: nat, at: nat, file: seq<byte>)
    requires h == HeaderAt(m, dol) && WellLaidOut(h, dol) && HookFits(h, dol, hook)
    requires StagedAt(h, k, addr, |file|, at) && Apart(addr, |file|, hook.addr, WINDOW)
    requires at + |file| <= WORD && HeaderAt(Written(m, at, file), dol) == h
    ensures HookedStaged(m, dol, hook).Some?
    ensures HookedStaged(Written(m, at, file), dol, hook) == Some(Written(HookedStaged(m, dol, hook).value, at, file))
  {
    var j, p := PlaceOfHook(h, dol, hook);
    StagedApart(h, dol, hook, j, p, k, addr, |file|, at);
    HookedIs(m, h, dol, hook, p);
    HookedIs(Written(m, at, file), h, dol, hook, p);
    HookAndFileSwap(m, hook, p, at, file);
  }

  // ---- The game's first memory ----

  /** Hooks, then Loader.pul through its staged place, then `patch_dol`. */
  function FirstMemory(m: Space, dol: nat, rg: Region, at: nat, file: seq<byte>, patches: seq<MemoryPatch>): Space
    requires AllHookedStaged(m, dol, HooksFor(rg)).Some? && at + |file| <= WORD
  {
    AllPatched(Loaded(Written(AllHookedStaged(m, dol, HooksFor(rg)).value, at, file), dol), patches)
  }

  /** The memory the game would start with if nothing were hooked. */
  function UnhookedMemory(m: Space, dol: nat, at: nat, file: seq<byte>, patches: seq<MemoryPatch>): Space
    requires at + |file| <= WORD
  {
    AllPatched(Loaded(Written(m, at, file), dol), patches)
  }

  /** With Loader.pul copied in between, every hook of every region works, for every state of the processor. */
  lemma HooksWorkWithLoader(m: Space, h: Header, dol: nat, rg: Region, k: nat, addr: word, at: nat, file: seq<byte>,
                            patches: seq<MemoryPatch>, i: nat, c: Cpu)
    requires i < FUNCTION_COUNT && |c.gpr| == 32
    requires h == HeaderAt(m, dol) && WellLaidOut(h, dol) && AllFit(h, dol, HooksFor(rg))
    requires FileFits(h, k, addr, |file|, at, HooksFor(rg)) && PatchesElsewhere(h, dol, HooksFor(rg), patches)
    ensures at + |file| <= WORD && AllHookedStaged(m, dol, HooksFor(rg)).Some?
    ensures HookWorks(FirstMemory(m, dol, rg, at, file, patches), UnhookedMemory(m, dol, at, file, patches), rg, i, c)
  {
    HooksAndFileSwap(m, h, dol, HooksFor(rg), k, addr, at, file);
    HookedFunctionsReachReplacements(Written(m, at, file), dol, rg, patches, i, c);
  }

  // ---- The launcher's own steps ----

  /** From the hooked memory on: Loader.pul, then `patch_dol`. None where the launcher stops before. */
  function AfterHooks(hooked: Space, dol: nat, addr: word, file: Option<seq<byte>>,
                      patches: seq<MemoryPatch>): Option<Space>
    requires FitsAt(hooked, dol, addr, file)
  {
    if !ResultOf(hooked, dol, addr, file).Copied? then None
    else Some(AllPatched(Loaded(Written(hooked, StagedAddress(HeaderAt(hooked, dol), addr).value, file.value), dol),
                         patches))
  }

  method LoadAndPatch(mem: array<byte>, dol: nat, addr: word, file: Option<seq<byte>>, patches: seq<MemoryPatch>)
    returns (started: bool)
    requires mem.Length == WORD && FitsAt(mem[..], dol, addr, file)
    modifies mem
    ensures started <==> AfterHooks(old(mem[..]), dol, addr, file, patches).Some?
    ensures started ==> AfterHooks(old(mem[..]), dol, addr, file, patches) == Some(mem[..])
  {
    var result := LoadPulsarLoader(mem, dol, addr, file);
    if !result.Copied? {
      return false;
    }
    PatchDol(mem, dol, patches);
    started := true;
  }

  function Launched(m: Space, dol: nat, region: char, addr: word, file: Option<seq<byte>>,
                    patches: seq<MemoryPatch>): Option<Space>
    requires HookedRegion(m, dol, region).Some? ==> FitsAt(HookedRegion(m, dol, region).value, dol, addr, file)
  {
    var hooked := HookedRegion(m, dol, region);
    if hooked.None? then None else AfterHooks(hooked.value, dol, addr, file, patches)
  }

  /** The end of `rrc_loader_load`, up to the jump into the game. */
  method Launch(mem: array<byte>, dol: nat, region: char, addr: word, file: Option<seq<byte>>,
                patches: seq<MemoryPatch>)
    returns (started: bool)
    requires mem.Length == WORD
    requires HookedRegion(mem[..], dol, region).Some? ==>
               FitsAt(HookedRegion(mem[..], dol, region).value, dol, addr, file)
    modifies mem
    ensures started <==> Launched(old(mem[..]), dol, region, addr, file, patches).Some?
    ensures started ==> Launched(old(mem[..]), dol, region, addr, file, patches) == Some(mem[..])
  {
    ghost var hooked := HookedRegion(mem[..], dol, region);
    started := PatchRegion(mem, dol, region);
    if started {
      assert hooked == Some(mem[..]);
      started := LoadAndPatch(mem, dol, addr, file, patches);
    }
  }

  /** What it leaves for a region whose hooks and Loader.pul fit. */
  lemma LaunchedIsFirstMemory(m: Space, h: Header, dol: nat, region: char, rg: Region, k: nat, addr: word, at: nat,
                              file: seq<byte>,
                              patches: seq<MemoryPatch>)
    requires RegionOf(region) == Some(rg)
    requires h == HeaderAt(m, dol) && WellLaidOut(h, dol) && AllFit(h, dol, HooksFor(rg))
    requires FileFits(h, k, addr, |file|, at, HooksFor(rg))
    ensures at + |file| <= WORD && AllHookedStaged(m, dol, HooksFor(rg)).Some?
    ensures FitsAt(AllHookedStaged(m, dol, HooksFor(rg)).value, dol, addr, Some(file))
    ensures Launched(m, dol, region, addr, Some(file), patches) == Some(FirstMemory(m, dol, rg, at, file, patches))
  {
    HooksAndFileSwap(m, h, dol, HooksFor(rg), k, addr, at, file);
    FileKeepsHeader(m, h, dol, k, addr, at, file);
    var hooked := AllHookedStaged(m, dol, HooksFor(rg)).value;
    FoundAt(h, addr, k, |file|, at);
    assert HookedRegion(m, dol, region) == Some(hooked);
    AfterHooksIs(hooked, h, dol, addr, at, file, patches);
  }

  lemma AfterHooksIs(hooked: Space, h: Header, dol: nat, addr: word, at: nat, file: seq<byte>,
                     patches: seq<MemoryPatch>)
    requires h == HeaderAt(hooked, dol) && StagedAddress(h, addr) == Some(at) && at + |file| <= WORD
    ensures FitsAt(hooked, dol, addr, Some(file))
    ensures AfterHooks(hooked, dol, addr, Some(file), patches)
              == Some(AllPatched(Loaded(Written(hooked, at, file), dol), patches))
  {
  }
}
