// source/loader/loader_addrs.h and loader.h: the addresses of the hooked DVD functions, per region.

/**
 * With the real tables, every hooked function reaches its replacement and every trampoline leads back behind the hook.
 */
module DvdHooks {
  import opened Bits
  import opened CStrings
  import opened Memory
  import opened Ppc
  import opened Dol
  import opened Hooks

  datatype Region = P | E | J

  /** `rrc_region_char_to_region` */
  function RegionOf(c: char): Option<Region> {
    match c
    case 'P' => Some(P)
    case 'E' => Some(E)
    case 'J' => Some(J)
    case _ => None
  }

  const FUNCTION_COUNT: nat := 5
  const TRAMPOLINE_START: nat := 0x81782d60
  const SIGNATURE_ADDRESS: nat := 0x817ffff8

  /** ConvertPathToEntrynum, FastOpen, Open, ReadPrio, Close. */
  function Addresses(rg: Region): (r: seq<word>)
    ensures |r| == FUNCTION_COUNT
    ensures forall i :: 0 <= i < FUNCTION_COUNT ==> 0x8000_0000 <= r[i] < 0x8100_0000
  {
    match rg
    case P => [0x8015df4c, 0x8015e254, 0x8015e2bc, 0x8015e834, 0x8015e568]
    case E => [0x8015deac, 0x8015e1b4, 0x8015e21c, 0x8015e794, 0x8015e4c8]
    case J => [0x8015de6c, 0x8015e174, 0x8015e1dc, 0x8015e754, 0x8015e488]
  }

  function BackjumpTargets(rg: Region): (r: seq<word>)
    ensures |r| == FUNCTION_COUNT
  {
    match rg
    case P => [0x8015df5c, 0x8015e264, 0x8015e2cc, 0x8015e844, 0x8015e578]
    case E => [0x8015debc, 0x8015e1c4, 0x8015e22c, 0x8015e7a4, 0x8015e4d8]
    case J => [0x8015de7c, 0x8015e184, 0x8015e1ec, 0x8015e764, 0x8015e498]
  }

  function CustomEntries(): (r: seq<word>)
    ensures |r| == FUNCTION_COUNT
  {
    [0x81782e60, 0x81782ee0, 0x81782ea0, 0x81782f20, 0x81782f60]
  }

  function HookFor(rg: Region, i: nat): (h: Hook)
    requires i < FUNCTION_COUNT
    ensures HookOk(h) && h.addr != 0
  {
    Hook(Addresses(rg)[i], TRAMPOLINE_START + i * 32, BranchTo(BackjumpTargets(rg)[i]), BranchTo(CustomEntries()[i]))
  }

  function HooksFor(rg: Region): (r: seq<Hook>)
    ensures |r| == FUNCTION_COUNT
    ensures forall i :: 0 <= i < FUNCTION_COUNT ==> r[i] == HookFor(rg, i)
  {
    seq(FUNCTION_COUNT, i requires 0 <= i < FUNCTION_COUNT => HookFor(rg, i))
  }

  /** What `patch_dvd_functions` makes of memory; None is a fatal error, an unsupported region among them. */
  function HookedRegion(m: Space, dol: nat, region: char): Option<Space> {
    match RegionOf(region)
    case None => None
    case Some(rg) => AllHookedStaged(m, dol, HooksFor(rg))
  }

  /** `patch_dvd_functions` */
  method PatchRegion(mem: array<byte>, dol: nat, region: char) returns (ok: bool)
    requires mem.Length == WORD
    modifies mem
    ensures ok <==> HookedRegion(old(mem[..]), dol, region).Some?
    ensures ok ==> HookedRegion(old(mem[..]), dol, region) == Some(mem[..])
    ensures RegionOf(region).None? ==> mem[..] == old(mem[..])
  {
    var rg := RegionOf(region);
    if rg.None? {
      return false;
    }
    ok := PatchDvdFunctions(mem, dol, HooksFor(rg.value));
  }

  predicate HooksApart(a: Hook, b: Hook) {
    && Apart(a.addr, WINDOW, b.addr, WINDOW)
    && Apart(a.addr, WINDOW, b.trampoline, 2 * WINDOW)
    && Apart(b.addr, WINDOW, a.trampoline, 2 * WINDOW)
    && Apart(a.trampoline, 2 * WINDOW, b.trampoline, 2 * WINDOW)
  }

  ghost predicate AllApart(hooks: seq<Hook>) {
    && (forall i :: 0 <= i < |hooks| ==>
          HookOk(hooks[i]) && hooks[i].addr != 0 && Apart(hooks[i].addr, WINDOW, hooks[i].trampoline, 2 * WINDOW))
    && (forall i, j :: 0 <= i < j < |hooks| ==> HooksApart(hooks[i], hooks[j]))
  }

  lemma WindowsApart(rg: Region)
    ensures forall i, j :: 0 <= i < j < FUNCTION_COUNT ==> Apart(Addresses(rg)[i], WINDOW, Addresses(rg)[j], WINDOW)
  {
  }

  /** The tables of all three regions: back jumps go to the hooked address plus 16, and nothing overlaps anything. */
  lemma TablesAreConsistent(rg: Region)
    ensures forall i :: 0 <= i < FUNCTION_COUNT ==> BackjumpTargets(rg)[i] == Addresses(rg)[i] + WINDOW
    ensures forall i :: 0 <= i < FUNCTION_COUNT ==> BackjumpTargets(rg)[i] % 4 == 0 && CustomEntries()[i] % 4 == 0
    ensures forall i :: 0 <= i < FUNCTION_COUNT ==> HookFor(rg, i).trampoline + 2 * WINDOW <= SIGNATURE_ADDRESS
  {
  }

  lemma TablesApart(rg: Region)
    ensures AllApart(HooksFor(rg))
  {
    WindowsApart(rg);
    var hooks := HooksFor(rg);
    forall i, j | 0 <= i < j < |hooks|
      ensures HooksApart(hooks[i], hooks[j])
    {
      assert hooks[i] == HookFor(rg, i) && hooks[j] == HookFor(rg, j);
      assert Apart(Addresses(rg)[i], WINDOW, Addresses(rg)[j], WINDOW);
    }
  }

  /** What a hook leaves in memory, given what was there before any hook. */
  ghost predicate InPlace(m: Space, before: Space, hook: Hook)
    requires HookOk(hook)
  {
    && m[hook.addr..hook.addr + WINDOW] == WordsBytes(hook.toCustom)
    && m[hook.trampoline..hook.trampoline + WINDOW] == before[hook.addr..hook.addr + WINDOW]
    && m[hook.trampoline + WINDOW..hook.trampoline + 2 * WINDOW] == WordsBytes(hook.backjump)
  }

  lemma {:induction false} UntouchedByHooks(m: Space, hooks: seq<Hook>, a: nat, n: nat)
    requires a + n <= WORD
    requires forall i :: 0 <= i < |hooks| ==>
               HookOk(hooks[i]) && Apart(a, n, hooks[i].addr, WINDOW) && Apart(a, n, hooks[i].trampoline, 2 * WINDOW)
    ensures AllHookedReal(m, hooks)[a..a + n] == m[a..a + n]
  {
    if hooks != [] {
      var front := hooks[..|hooks| - 1];
      UntouchedByHooks(m, front, a, n);
      OneHookKeeps(AllHookedReal(m, front), hooks[|hooks| - 1], a, n);
    }
  }

  lemma OneHookKeeps(m: Space, hook: Hook, a: nat, n: nat)
    requires a + n <= WORD && HookOk(hook)
    requires Apart(a, n, hook.addr, WINDOW) && Apart(a, n, hook.trampoline, 2 * WINDOW)
    ensures HookedReal(m, hook)[a..a + n] == m[a..a + n]
  {
    SameSlice(m, a, HookedReal(m, hook), a, n);
  }

  lemma HookPutsInPlace(m: Space, hook: Hook)
    requires HookOk(hook) && hook.addr != 0 && Apart(hook.addr, WINDOW, hook.trampoline, 2 * WINDOW)
    ensures InPlace(HookedReal(m, hook), m, hook)
  {
    var m' := HookedReal(m, hook);
    var t := hook.trampoline;
    var kept := m[hook.addr..hook.addr + WINDOW];
    assert m'[hook.addr..hook.addr + WINDOW] == WordsBytes(hook.toCustom);
    assert m'[t..t + WINDOW] == kept;
    assert m'[t + WINDOW..t + 2 * WINDOW] == WordsBytes(hook.backjump);
  }

  lemma InPlaceKept(m: Space, before: Space, hook: Hook, later: Hook)
    requires HookOk(hook) && HookOk(later) && HooksApart(hook, later) && InPlace(m, before, hook)
    ensures InPlace(HookedReal(m, later), before, hook)
  {
    OneHookKeeps(m, later, hook.addr, WINDOW);
    OneHookKeeps(m, later, hook.trampoline, WINDOW);
    OneHookKeeps(m, later, hook.trampoline + WINDOW, WINDOW);
  }

  lemma InPlaceFrom(m: Space, before: Space, first: Space, hook: Hook)
    requires HookOk(hook) && InPlace(m, before, hook)
    requires before[hook.addr..hook.addr + WINDOW] == first[hook.addr..hook.addr + WINDOW]
    ensures InPlace(m, first, hook)
  {
  }

  /** Another hook leaves the function and the trampoline of this one alone. */
  ghost predicate SparesHook(hook: Hook, other: Hook) {
    HookOk(other) && Apart(hook.addr, WINDOW, other.addr, WINDOW)
    && Apart(hook.addr, WINDOW, other.trampoline, 2 * WINDOW)
  }

  lemma LastIsSpared(hooks: seq<Hook>)
    requires AllApart(hooks) && hooks != []
    ensures forall j :: 0 <= j < |hooks| - 1 ==> SparesHook(hooks[|hooks| - 1], hooks[j])
  {
    forall j | 0 <= j < |hooks| - 1
      ensures SparesHook(hooks[|hooks| - 1], hooks[j])
    {
      assert HooksApart(hooks[j], hooks[|hooks| - 1]);
    }
  }

  lemma BehindOthersInPlace(m: Space, front: seq<Hook>, last: Hook)
    requires forall j :: 0 <= j < |front| ==> SparesHook(last, front[j])
    requires HookOk(last) && last.addr != 0 && Apart(last.addr, WINDOW, last.trampoline, 2 * WINDOW)
    ensures (forall k :: k in front ==> HookOk(k)) && InPlace(HookedReal(AllHookedReal(m, front), last), m, last)
  {
    UntouchedByHooks(m, front, last.addr, WINDOW);
    HookPutsInPlace(AllHookedReal(m, front), last);
    InPlaceFrom(HookedReal(AllHookedReal(m, front), last), AllHookedReal(m, front), m, last);
  }

  lemma LastInPlace(m: Space, hooks: seq<Hook>)
    requires AllApart(hooks) && hooks != []
    ensures InPlace(AllHookedReal(m, hooks), m, hooks[|hooks| - 1])
  {
    LastIsSpared(hooks);
    BehindOthersInPlace(m, hooks[..|hooks| - 1], hooks[|hooks| - 1]);
  }

  /** Installing all hooks puts each one in place; no later hook disturbs an earlier one. */
  lemma {:induction false} HooksInPlace(m: Space, hooks: seq<Hook>, i: nat)
    requires AllApart(hooks) && i < |hooks|
    ensures InPlace(AllHookedReal(m, hooks), m, hooks[i])
  {
    var n := |hooks| - 1;
    if i == n {
      LastInPlace(m, hooks);
    } else {
      HooksInPlace(m, hooks[..n], i);
      assert HooksApart(hooks[i], hooks[n]);
      InPlaceKept(AllHookedReal(m, hooks[..n]), m, hooks[i], hooks[n]);
    }
  }

  lemma SlicesOutsideAgree(h: Header, dol: nat, m: Space, m': Space, a: nat, n: nat)
    requires AgreeOutside(h, dol, m, m') && a + n <= WORD
    requires forall i :: a <= i < a + n ==> !Staged(h, dol, i)
    ensures m[a..a + n] == m'[a..a + n]
  {
    SameSlice(m, a, m', a, n);
  }

  lemma InPlaceOutside(h: Header, dol: nat, m: Space, m': Space, before: Space, hook: Hook)
    requires StagingSafe(h, dol) && HookFits(h, dol, hook) && AgreeOutside(h, dol, m, m') && InPlace(m', before, hook)
    ensures InPlace(m, before, hook)
  {
    var k := FirstCovering(h.sections, hook.addr).value;
    forall x | hook.addr <= x < hook.addr + WINDOW
      ensures !Staged(h, dol, x)
    {
      assert InTarget(h.sections[k], x);
      assert Overwritten(h, x);
    }
    SlicesOutsideAgree(h, dol, m, m', hook.addr, WINDOW);
    SlicesOutsideAgree(h, dol, m, m', hook.trampoline, WINDOW);
    SlicesOutsideAgree(h, dol, m, m', hook.trampoline + WINDOW, WINDOW);
  }

  lemma StoredWordsHeld(m: Space, a: nat, words: seq<word>)
    requires a + 4 * |words| <= WORD && m[a..a + 4 * |words|] == WordsBytes(words)
    ensures HoldsWords(m, a, words)
  {
    forall i | 0 <= i < |words|
      ensures WordAt(m, a + 4 * i) == words[i]
    {
      WordAtWordsBytes(m, a, words, i);
    }
  }

  lemma StoredBranchReaches(m: Space, c: Cpu, a: nat, target: word)
    requires a + WINDOW <= WORD && m[a..a + WINDOW] == WordsBytes(BranchTo(target)) && target % 4 == 0
    requires |c.gpr| == 32 && c.pc == a
    ensures Run(m, c, 4) == Some(Cpu(target, c.gpr[9 := target], target))
  {
    var words := BranchTo(target);
    BranchSize(target);
    StoredWordsHeld(m, a, words);
    WordsReach(m, c, words, target);
    assert InstructionAddress(target) == target;
  }

  lemma BranchSize(target: word)
    ensures |BranchTo(target)| == 4
  {
  }

  /** The memory the game starts with after the hooks were installed in the staged file. */
  function LaunchMemory(m: Space, dol: nat, rg: Region, patches: seq<MemoryPatch>): Space
    requires AllHookedStaged(m, dol, HooksFor(rg)).Some?
  {
    AllPatched(Loaded(AllHookedStaged(m, dol, HooksFor(rg)).value, dol), patches)
  }

  /** No memory patch touches the staged file, a hooked function's window or a trampoline. */
  ghost predicate PatchesElsewhere(h: Header, dol: nat, hooks: seq<Hook>, patches: seq<MemoryPatch>) {
    && (forall p :: p in patches ==> PatchOutside(h, dol, p))
    && (forall p, k :: p in patches && k in hooks ==> PatchApartFrom(p, k))
  }

  lemma LaunchedInPlace(m: Space, dol: nat, rg: Region, patches: seq<MemoryPatch>, i: nat)
    requires i < FUNCTION_COUNT
    requires WellLaidOut(HeaderAt(m, dol), dol) && AllFit(HeaderAt(m, dol), dol, HooksFor(rg))
    requires PatchesElsewhere(HeaderAt(m, dol), dol, HooksFor(rg), patches)
    ensures AllHookedStaged(m, dol, HooksFor(rg)).Some?
    ensures InPlace(LaunchMemory(m, dol, rg, patches), AllPatched(Loaded(m, dol), patches), HookFor(rg, i))
  {
    var h, hooks := HeaderAt(m, dol), HooksFor(rg);
    TablesApart(rg);
    StagedPatchingIsRealPatching(m, dol, hooks, patches);
    var unhooked := AllPatched(Loaded(m, dol), patches);
    HooksInPlace(unhooked, hooks, i);
    assert hooks[i] in hooks;
    InPlaceOutside(h, dol, LaunchMemory(m, dol, rg, patches), AllHookedReal(unhooked, hooks), unhooked, hooks[i]);
  }

  /**
   * One hooked function in the final memory: calling it runs into its replacement having changed only r9 and
   * CTR; its trampoline holds the four instructions it lost, followed by a jump to the instruction after them.
   */
  ghost predicate HookWorks(final: Space, unhooked: Space, rg: Region, i: nat, c: Cpu)
    requires i < FUNCTION_COUNT && |c.gpr| == 32
  {
    var addr, custom, trampoline := Addresses(rg)[i], CustomEntries()[i], HookFor(rg, i).trampoline;
    && (c.pc == addr ==> Run(final, c, 4) == Some(Cpu(custom, c.gpr[9 := custom], custom)))
    && final[trampoline..trampoline + WINDOW] == unhooked[addr..addr + WINDOW]
    && (c.pc == trampoline + WINDOW ==>
          Run(final, c, 4) == Some(Cpu(addr + WINDOW, c.gpr[9 := addr + WINDOW], addr + WINDOW)))
  }

  /** In the memory the game starts with, every hook of every region works, for every state of the processor. */
  lemma HookedFunctionsReachReplacements(m: Space, dol: nat, rg: Region, patches: seq<MemoryPatch>, i: nat, c: Cpu)
    requires i < FUNCTION_COUNT && |c.gpr| == 32
    requires WellLaidOut(HeaderAt(m, dol), dol) && AllFit(HeaderAt(m, dol), dol, HooksFor(rg))
    requires PatchesElsewhere(HeaderAt(m, dol), dol, HooksFor(rg), patches)
    ensures AllHookedStaged(m, dol, HooksFor(rg)).Some?
    ensures HookWorks(LaunchMemory(m, dol, rg, patches), AllPatched(Loaded(m, dol), patches), rg, i, c)
  {
    LaunchedInPlace(m, dol, rg, patches, i);
    HookInPlaceWorks(LaunchMemory(m, dol, rg, patches), AllPatched(Loaded(m, dol), patches), rg, i, c);
  }

  lemma HookInPlaceWorks(final: Space, unhooked: Space, rg: Region, i: nat, c: Cpu)
    requires i < FUNCTION_COUNT && |c.gpr| == 32 && InPlace(final, unhooked, HookFor(rg, i))
    ensures HookWorks(final, unhooked, rg, i, c)
  {
    TablesAreConsistent(rg);
    if c.pc == Addresses(rg)[i] {
      StoredBranchReaches(final, c, c.pc, CustomEntries()[i]);
    }
    if c.pc == HookFor(rg, i).trampoline + WINDOW {
      StoredBranchReaches(final, c, c.pc, BackjumpTargets(rg)[i]);
    }
  }
}
