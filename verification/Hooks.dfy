// source/loader/loader.c (patch_dvd_functions), binary_loader.c (section lookup) and loader_addrs.h.

/** Hooking functions inside the staged DOL, and why that equals hooking them at their real addresses. */
module Hooks {
  import opened Bits
  import opened CStrings
  import opened Memory
  import opened Dol

  /**
   * One function to hook: its address, the words that lead back behind the hook, the words that lead to the
   * replacement.
   */
  datatype Hook = Hook(addr: word, trampoline: nat, backjump: seq<word>, toCustom: seq<word>)

  const WINDOW: nat := 16

  predicate HookOk(k: Hook) {
    |k.backjump| == 4 && |k.toCustom| == 4 && k.addr + WINDOW <= WORD && k.trampoline + 2 * WINDOW <= WORD
  }

  predicate Covers(s: Section, addr: nat) {
    s.addr <= addr < Wrap(s.addr + s.size)
  }

  /** `rrc_binary_find_section_by_addr`: the first section that covers the address. */
  function FirstCovering(sections: seq<Section>, addr: nat): (r: Option<nat>)
    ensures r.None? ==> forall i :: 0 <= i < |sections| ==> !Covers(sections[i], addr)
    ensures r.Some? ==> r.value < |sections| && Covers(sections[r.value], addr)
    ensures r.Some? ==> forall i :: 0 <= i < r.value ==> !Covers(sections[i], addr)
  {
    if sections == [] then None
    else if Covers(sections[0], addr) then Some(0)
    else
      var rest := FirstCovering(sections[1..], addr);
      if rest.None? then None else Some(rest.value + 1)
  }

  /** The staged place of an address in a section. */
  function StagedPlace(s: Section, addr: nat): nat
    requires s.addr <= addr
  {
    Wrap(s.src + (addr - s.addr))
  }

  method FindSectionByAddr(sections: seq<Section>, addr: nat) returns (virtAddr: nat, sectionIndex: int)
    ensures sectionIndex == -1 <==> FirstCovering(sections, addr).None?
    ensures sectionIndex != -1 ==> FirstCovering(sections, addr) == Some(sectionIndex)
    ensures sectionIndex != -1 ==> virtAddr == StagedPlace(sections[sectionIndex], addr)
  {
    var i := 0;
    while i < |sections|
      invariant 0 <= i <= |sections|
      invariant forall j :: 0 <= j < i ==> !Covers(sections[j], addr)
    {
      if addr >= sections[i].addr && addr < Wrap(sections[i].addr + sections[i].size) {
        FirstCoveringIs(sections, addr, i);
        return StagedPlace(sections[i], addr), i;
      }
      i := i + 1;
    }
    NoneCovers(sections, addr);
    return 0, -1;
  }

  lemma FirstCoveringIs(sections: seq<Section>, addr: nat, i: nat)
    requires i < |sections| && Covers(sections[i], addr) && forall j :: 0 <= j < i ==> !Covers(sections[j], addr)
    ensures FirstCovering(sections, addr) == Some(i)
  {
    assert FirstCovering(sections, addr).Some?;
  }

  lemma NoneCovers(sections: seq<Section>, addr: nat)
    requires forall j :: 0 <= j < |sections| ==> !Covers(sections[j], addr)
    ensures FirstCovering(sections, addr).None?
  {
  }

  /**
   * The two copies of one hook: original words and back jump to the trampoline, jump to the replacement over the
   * function.
   */
  function HookedAt(m: Space, hook: Hook, at: nat): Space
    requires HookOk(hook) && at + WINDOW <= WORD
  {
    Written(Saved(m, hook, at), at, WordsBytes(hook.toCustom))
  }

  function Saved(m: Space, hook: Hook, at: nat): Space
    requires HookOk(hook) && at + WINDOW <= WORD
  {
    Written(m, hook.trampoline, m[at..at + WINDOW] + WordsBytes(hook.backjump))
  }

  /** Where the launcher finds the staged copy of a function: None when the address is in no section. */
  function StagedAddress(h: Header, addr: nat): Option<nat> {
    var k := FirstCovering(h.sections, addr);
    if k.None? then None else Some(StagedPlace(h.sections[k.value], addr))
  }

  /** One round of `patch_dvd_functions`; an address of zero is skipped. None is the fatal error. */
  function HookedStaged(m: Space, dol: nat, hook: Hook): Option<Space>
    requires HookOk(hook)
  {
    if hook.addr == 0 then Some(m) else HookedVia(m, hook, StagedAddress(HeaderAt(m, dol), hook.addr))
  }

  function HookedVia(m: Space, hook: Hook, at: Option<nat>): Option<Space>
    requires HookOk(hook)
  {
    if at.None? || at.value + WINDOW > WORD then None else Some(HookedAt(m, hook, at.value))
  }

  function AllHookedStaged(m: Space, dol: nat, hooks: seq<Hook>): Option<Space>
    requires forall k :: k in hooks ==> HookOk(k)
  {
    if hooks == [] then Some(m)
    else
      var before := AllHookedStaged(m, dol, hooks[..|hooks| - 1]);
      if before.None? then None else HookedStaged(before.value, dol, hooks[|hooks| - 1])
  }

  /** The same hook where the function really is. */
  function HookedReal(m: Space, hook: Hook): Space
    requires HookOk(hook)
  {
    if hook.addr == 0 then m else HookedAt(m, hook, hook.addr)
  }

  function AllHookedReal(m: Space, hooks: seq<Hook>): Space
    requires forall k :: k in hooks ==> HookOk(k)
  {
    if hooks == [] then m
    else HookedReal(AllHookedReal(m, hooks[..|hooks| - 1]), hooks[|hooks| - 1])
  }

  method HookFunction(mem: array<byte>, dol: nat, hook: Hook) returns (ok: bool)
    requires mem.Length == WORD && HookOk(hook)
    modifies mem
    ensures ok <==> HookedStaged(old(mem[..]), dol, hook).Some?
    ensures ok ==> HookedStaged(old(mem[..]), dol, hook) == Some(mem[..])
  {
    if hook.addr == 0 {
      return true;
    }
    ghost var before: Space := mem[..];
    var virtAddr, sectionIndex := FindSectionByAddr(HeaderAt(mem[..], dol).sections, hook.addr);
    HookedThere(before, dol, hook, if sectionIndex == -1 then None else Some(virtAddr));
    if sectionIndex == -1 || virtAddr + WINDOW > WORD {
      return false;
    }
    InstallHook(mem, hook, virtAddr);
    return true;
  }

  lemma HookedThere(m: Space, dol: nat, hook: Hook, at: Option<nat>)
    requires HookOk(hook) && hook.addr != 0 && StagedAddress(HeaderAt(m, dol), hook.addr) == at
    ensures HookedStaged(m, dol, hook) == HookedVia(m, hook, at)
  {
  }

  method InstallHook(mem: array<byte>, hook: Hook, at: nat)
    requires mem.Length == WORD && HookOk(hook) && at + WINDOW <= WORD
    modifies mem
    ensures mem[..] == HookedAt(old(mem[..]), hook, at)
  {
    CopyIn(mem, hook.trampoline, mem[at..at + WINDOW] + WordsBytes(hook.backjump));
    CopyIn(mem, at, WordsBytes(hook.toCustom));
  }

  method CopyIn(mem: array<byte>, at: nat, bytes: seq<byte>)
    requires mem.Length == WORD && at + |bytes| <= WORD
    modifies mem
    ensures mem[..] == Written(old(mem[..]), at, bytes)
  {
    forall i | 0 <= i < |bytes| {
      mem[at + i] := bytes[i];
    }
  }

  /** A function outside every section is fatal for the whole list. */
  lemma {:induction false} FatalStays(m: Space, dol: nat, hooks: seq<Hook>, n: nat)
    requires n <= |hooks| && (forall k :: k in hooks ==> HookOk(k)) && AllHookedStaged(m, dol, hooks[..n]).None?
    ensures AllHookedStaged(m, dol, hooks).None?
    decreases |hooks|
  {
    if n == |hooks| {
      assert hooks[..n] == hooks;
    } else {
      assert hooks[..|hooks| - 1][..n] == hooks[..n];
      FatalStays(m, dol, hooks[..|hooks| - 1], n);
    }
  }

  /** `patch_dvd_functions` over its five entries. */
  method PatchDvdFunctions(mem: array<byte>, dol: nat, hooks: seq<Hook>) returns (ok: bool)
    requires mem.Length == WORD && forall k :: k in hooks ==> HookOk(k)
    modifies mem
    ensures ok <==> AllHookedStaged(old(mem[..]), dol, hooks).Some?
    ensures ok ==> AllHookedStaged(old(mem[..]), dol, hooks) == Some(mem[..])
  {
    ghost var start: Space := mem[..];
    var i := 0;
    while i < |hooks|
      invariant 0 <= i <= |hooks|
      invariant AllHookedStaged(start, dol, hooks[..i]) == Some(mem[..])
    {
      assert hooks[..i + 1][..i] == hooks[..i];
      ghost var before: Space := mem[..];
      assert AllHookedStaged(start, dol, hooks[..i + 1]) == HookedStaged(before, dol, hooks[i]);
      ok := HookFunction(mem, dol, hooks[i]);
      if !ok {
        FatalStays(start, dol, hooks, i + 1);
        return false;
      }
      i := i + 1;
    }
    assert hooks[..i] == hooks;
    return true;
  }

  // ---- The commuting square. ----

  predicate Apart(a: nat, n: nat, b: nat, m: nat) {
    a + n <= b || b + m <= a || n == 0 || m == 0
  }

  /** Sections are disjoint where they are staged and where they go, and staged behind the header. */
  ghost predicate WellLaidOut(h: Header, dol: nat) {
    && StagingSafe(h, dol)
    && (forall k :: 0 <= k < |h.sections| ==> Apart(h.sections[k].src, h.sections[k].size, dol, HEADER_SIZE))
    && (forall j, k :: 0 <= j < k < |h.sections| ==>
          && Apart(h.sections[j].addr, h.sections[j].size, h.sections[k].addr, h.sections[k].size)
          && Apart(h.sections[j].src, h.sections[j].size, h.sections[k].src, h.sections[k].size))
  }

  predicate WithinSection(s: Section, a: nat, n: nat) {
    s.addr <= a && a + n <= s.addr + s.size
  }

  /** Two memories that differ at most inside the staged file. */
  ghost predicate AgreeOutside(h: Header, dol: nat, m: Space, m': Space) {
    forall a :: 0 <= a < WORD && !Staged(h, dol, a) ==> m[a] == m'[a]
  }

  /** A range clear of the staged file, of BSS and of every section. */
  ghost predicate ClearOf(h: Header, dol: nat, a: nat, n: nat) {
    a + n <= WORD && forall i :: a <= i < a + n ==> !Staged(h, dol, i) && !Overwritten(h, i)
  }

  lemma InOnlyItsSection(h: Header, dol: nat, k: nat, j: nat, a: nat)
    requires WellLaidOut(h, dol) && k < |h.sections| && j < |h.sections| && j != k
    requires InTarget(h.sections[k], a)
    ensures !InTarget(h.sections[j], a)
  {
    if j < k {
      assert Apart(h.sections[j].addr, h.sections[j].size, h.sections[k].addr, h.sections[k].size);
    } else {
      assert Apart(h.sections[k].addr, h.sections[k].size, h.sections[j].addr, h.sections[j].size);
    }
  }

  lemma StagedInOnlyOne(h: Header, dol: nat, k: nat, j: nat, b: nat)
    requires WellLaidOut(h, dol) && k < |h.sections| && j < |h.sections| && j != k
    requires InSource(h.sections[k], b)
    ensures !InSource(h.sections[j], b)
  {
    if j < k {
      assert Apart(h.sections[j].src, h.sections[j].size, h.sections[k].src, h.sections[k].size);
    } else {
      assert Apart(h.sections[k].src, h.sections[k].size, h.sections[j].src, h.sections[j].size);
    }
  }

  /** A byte in one section's range ends up as that section's staged byte. */
  lemma {:induction false} LoadedInSection(m: Space, h: Header, dol: nat, k: nat, n: nat, a: nat)
    requires WellLaidOut(h, dol) && k < n <= |h.sections| && a < WORD && InTarget(h.sections[k], a)
    ensures NoWrap(h.sections[k])
    ensures LoadedByte(m, h, n, a) == m[h.sections[k].src + (a - h.sections[k].addr)]
  {
    if n - 1 != k {
      InOnlyItsSection(h, dol, k, n - 1, a);
      LoadedInSection(m, h, dol, k, n - 1, a);
    }
  }

  /** Rewriting staged bytes of section `k` rewrites the bytes they become, and nothing else outside the staged file. */
  lemma {:induction false} StagedWriteByte(m: Space, h: Header, dol: nat, k: nat, a: nat, bytes: seq<byte>, n: nat,
                                           x: nat)
    requires WellLaidOut(h, dol) && k < |h.sections| && n <= |h.sections| && x < WORD
    requires WithinSection(h.sections[k], a, |bytes|) && !Staged(h, dol, x)
    ensures NoWrap(h.sections[k])
    ensures var s := h.sections[k];
            LoadedByte(Written(m, s.src + (a - s.addr), bytes), h, n, x)
              == if k < n && a <= x < a + |bytes| then bytes[x - a] else LoadedByte(m, h, n, x)
  {
    var s := h.sections[k];
    assert NoWrap(s);
    var at := s.src + (a - s.addr);
    if n == 0 {
      assert at <= x < at + |bytes| ==> InSource(s, x);
    } else {
      StagedWriteByte(m, h, dol, k, a, bytes, n - 1, x);
      OverlaidAfterWrite(m, h, dol, k, a, bytes, at, n - 1, x, LoadedByte(m, h, n - 1, x),
                         LoadedByte(Written(m, at, bytes), h, n - 1, x));
    }
  }

  /** One section more, section `j`, over bytes that agree so far. */
  lemma OverlaidAfterWrite(m: Space, h: Header, dol: nat, k: nat, a: nat, bytes: seq<byte>, at: nat, j: nat, x: nat,
                           under: byte, under': byte)
    requires WellLaidOut(h, dol) && k < |h.sections| && j < |h.sections| && x < WORD && !Staged(h, dol, x)
    requires WithinSection(h.sections[k], a, |bytes|) && at == h.sections[k].src + (a - h.sections[k].addr)
    requires at + |bytes| <= WORD && NoWrap(h.sections[j])
    requires under' == if k < j && a <= x < a + |bytes| then bytes[x - a] else under
    ensures Overlaid(Written(m, at, bytes), h.sections[j], under', x)
              == if k < j + 1 && a <= x < a + |bytes| then bytes[x - a] else Overlaid(m, h.sections[j], under, x)
  {
    var t := h.sections[j];
    if InTarget(t, x) {
      var b := t.src + (x - t.addr);
      assert InSource(t, b);
      if j != k {
        StagedInOnlyOne(h, dol, j, k, b);
        InOnlyItsSection(h, dol, j, k, x);
      }
    }
  }

  /** Writing where nothing is staged and nothing lands commutes with loading. */
  lemma {:induction false} ClearWriteByte(m: Space, h: Header, dol: nat, t: nat, bytes: seq<byte>, n: nat, x: nat)
    requires NothingWraps(h) && n <= |h.sections| && x < WORD && ClearOf(h, dol, t, |bytes|)
    ensures LoadedByte(Written(m, t, bytes), h, n, x)
              == if t <= x < t + |bytes| then bytes[x - t] else LoadedByte(m, h, n, x)
  {
    if n == 0 {
      if t <= x < t + |bytes| {
        assert !Overwritten(h, x);
      }
    } else {
      var s := h.sections[n - 1];
      assert NoWrap(s);
      ClearWriteByte(m, h, dol, t, bytes, n - 1, x);
      if InTarget(s, x) {
        assert Overwritten(h, x);
        var b := s.src + (x - s.addr);
        assert InSource(s, b);
        assert Staged(h, dol, b);
      }
    }
  }

  lemma HeaderAfterWrite(m: Space, dol: nat, at: nat, bytes: seq<byte>)
    requires dol + HEADER_SIZE <= WORD && at + |bytes| <= WORD && Apart(at, |bytes|, dol, HEADER_SIZE)
    ensures HeaderAt(Written(m, at, bytes), dol) == HeaderAt(m, dol)
  {
    SameHeader(m, Written(m, at, bytes), dol);
  }

  /** Where the staged copy of the range starting at `a` in section `k` begins. */
  predicate StagedAt(h: Header, k: nat, a: nat, n: nat, at: nat) {
    && k < |h.sections| && WithinSection(h.sections[k], a, n) && NoWrap(h.sections[k])
    && at == h.sections[k].src + (a - h.sections[k].addr)
  }

  /** Writing through the staged copy is, outside the staged file, writing at the real address after loading. */
  lemma StagedWriteCommutes(m: Space, h: Header, dol: nat, k: nat, a: nat, bytes: seq<byte>, at: nat)
    requires h == HeaderAt(m, dol) && WellLaidOut(h, dol) && StagedAt(h, k, a, |bytes|, at)
    ensures HeaderAt(Written(m, at, bytes), dol) == h
    ensures AgreeOutside(h, dol, Loaded(Written(m, at, bytes), dol), Written(Loaded(m, dol), a, bytes))
  {
    assert Apart(h.sections[k].src, h.sections[k].size, dol, HEADER_SIZE);
    HeaderAfterWrite(m, dol, at, bytes);
    forall x | 0 <= x < WORD && !Staged(h, dol, x)
      ensures Loaded(Written(m, at, bytes), dol)[x] == Written(Loaded(m, dol), a, bytes)[x]
    {
      StagedWriteCommutesAt(m, h, dol, k, a, bytes, at, x);
    }
  }

  lemma StagedWriteCommutesAt(m: Space, h: Header, dol: nat, k: nat, a: nat, bytes: seq<byte>, at: nat, x: nat)
    requires h == HeaderAt(m, dol) && WellLaidOut(h, dol) && StagedAt(h, k, a, |bytes|, at)
    requires HeaderAt(Written(m, at, bytes), dol) == h && x < WORD && !Staged(h, dol, x)
    ensures Loaded(Written(m, at, bytes), dol)[x] == Written(Loaded(m, dol), a, bytes)[x]
  {
    LoadedIs(m, dol, x);
    LoadedIs(Written(m, at, bytes), dol, x);
    StagedWriteByte(m, h, dol, k, a, bytes, SECTION_COUNT, x);
  }

  lemma ClearWriteCommutes(m: Space, dol: nat, t: nat, bytes: seq<byte>)
    requires WellLaidOut(HeaderAt(m, dol), dol) && ClearOf(HeaderAt(m, dol), dol, t, |bytes|) && |bytes| > 0
    ensures HeaderAt(Written(m, t, bytes), dol) == HeaderAt(m, dol)
    ensures Loaded(Written(m, t, bytes), dol) == Written(Loaded(m, dol), t, bytes)
  {
    var h, m' := HeaderAt(m, dol), Written(m, t, bytes);
    var b := if t < dol then dol else t;
    assert InHeader(dol, b) ==> Staged(h, dol, b);
    HeaderAfterWrite(m, dol, t, bytes);
    forall x | 0 <= x < WORD
      ensures Loaded(m', dol)[x] == Written(Loaded(m, dol), t, bytes)[x]
    {
      ClearWriteCommutesAt(m, h, dol, t, bytes, x);
    }
  }

  lemma ClearWriteCommutesAt(m: Space, h: Header, dol: nat, t: nat, bytes: seq<byte>, x: nat)
    requires h == HeaderAt(m, dol) && WellLaidOut(h, dol) && ClearOf(h, dol, t, |bytes|) && x < WORD
    requires t + |bytes| <= WORD && HeaderAt(Written(m, t, bytes), dol) == h
    ensures Loaded(Written(m, t, bytes), dol)[x] == Written(Loaded(m, dol), t, bytes)[x]
  {
    LoadedIs(m, dol, x);
    LoadedIs(Written(m, t, bytes), dol, x);
    ClearWriteByte(m, h, dol, t, bytes, SECTION_COUNT, x);
  }

  lemma StagedByteRead(m: Space, h: Header, dol: nat, k: nat, a: nat)
    requires h == HeaderAt(m, dol) && WellLaidOut(h, dol) && k < |h.sections| && InTarget(h.sections[k], a)
    ensures NoWrap(h.sections[k])
    ensures Loaded(m, dol)[a] == m[h.sections[k].src + (a - h.sections[k].addr)]
  {
    LoadedInSection(m, h, dol, k, SECTION_COUNT, a);
    LoadedIs(m, dol, a);
  }

  /** The staged bytes of a range inside one section are the bytes the range will hold. */
  lemma StagedReadCommutes(m: Space, h: Header, dol: nat, k: nat, a: nat, n: nat, at: nat)
    requires h == HeaderAt(m, dol) && WellLaidOut(h, dol) && StagedAt(h, k, a, n, at)
    ensures m[at..at + n] == Loaded(m, dol)[a..a + n]
  {
    forall x | a <= x < a + n
      ensures Loaded(m, dol)[x] == m[at + (x - a)]
    {
      StagedByteRead(m, h, dol, k, x);
    }
    SameSlice(m, at, Loaded(m, dol), a, n);
  }

  /**
   * The whole window of the function lies in the section the lookup finds, and the trampoline is out of everyone's
   * way.
   */
  ghost predicate HookFits(h: Header, dol: nat, hook: Hook) {
    && HookOk(hook)
    && hook.addr != 0
    && FirstCovering(h.sections, hook.addr).Some?
    && WithinSection(h.sections[FirstCovering(h.sections, hook.addr).value], hook.addr, WINDOW)
    && ClearOf(h, dol, hook.trampoline, 2 * WINDOW)
  }

  /** One hook: installing it in the staged file, then loading, is loading, then installing it in place. */
  lemma HookCommutes(m: Space, dol: nat, hook: Hook)
    requires WellLaidOut(HeaderAt(m, dol), dol) && HookFits(HeaderAt(m, dol), dol, hook)
    ensures HookedStaged(m, dol, hook).Some?
    ensures var h, m' := HeaderAt(m, dol), HookedStaged(m, dol, hook).value;
            HeaderAt(m', dol) == h && AgreeOutside(h, dol, Loaded(m', dol), HookedReal(Loaded(m, dol), hook))
  {
    var h := HeaderAt(m, dol);
    var k, at := PlaceOfHook(h, dol, hook);
    HookedIs(m, h, dol, hook, at);
    HookCommutesAt(m, h, dol, hook, k, at);
  }

  lemma FoundAt(h: Header, addr: nat, k: nat, n: nat, at: nat)
    requires FirstCovering(h.sections, addr) == Some(k) && StagedAt(h, k, addr, n, at)
    ensures StagedAddress(h, addr) == Some(at)
  {
  }

  /** Where the window of a hook that fits is staged. */
  lemma PlaceOfHook(h: Header, dol: nat, hook: Hook) returns (k: nat, at: nat)
    requires WellLaidOut(h, dol) && HookFits(h, dol, hook)
    ensures StagedAt(h, k, hook.addr, WINDOW, at) && StagedAddress(h, hook.addr) == Some(at) && at + WINDOW <= WORD
  {
    k := FirstCovering(h.sections, hook.addr).value;
    assert NoWrap(h.sections[k]);
    at := h.sections[k].src + (hook.addr - h.sections[k].addr);
    FoundAt(h, hook.addr, k, WINDOW, at);
  }

  lemma HookedIs(m: Space, h: Header, dol: nat, hook: Hook, at: nat)
    requires HookOk(hook) && hook.addr != 0 && h == HeaderAt(m, dol)
    requires StagedAddress(h, hook.addr) == Some(at) && at + WINDOW <= WORD
    ensures HookedStaged(m, dol, hook) == Some(HookedAt(m, hook, at))
  {
  }

  lemma SavedCommutes(m: Space, h: Header, dol: nat, hook: Hook, k: nat, at: nat)
    requires h == HeaderAt(m, dol) && WellLaidOut(h, dol) && HookOk(hook)
    requires StagedAt(h, k, hook.addr, WINDOW, at) && ClearOf(h, dol, hook.trampoline, 2 * WINDOW)
    ensures HeaderAt(Saved(m, hook, at), dol) == h
    ensures Loaded(Saved(m, hook, at), dol) == Saved(Loaded(m, dol), hook, hook.addr)
  {
    StagedReadCommutes(m, h, dol, k, hook.addr, WINDOW, at);
    ClearWriteCommutes(m, dol, hook.trampoline, m[at..at + WINDOW] + WordsBytes(hook.backjump));
  }

  lemma HookCommutesAt(m: Space, h: Header, dol: nat, hook: Hook, k: nat, at: nat)
    requires h == HeaderAt(m, dol) && WellLaidOut(h, dol) && HookOk(hook)
    requires StagedAt(h, k, hook.addr, WINDOW, at) && ClearOf(h, dol, hook.trampoline, 2 * WINDOW)
    ensures HeaderAt(HookedAt(m, hook, at), dol) == h
    ensures AgreeOutside(h, dol, Loaded(HookedAt(m, hook, at), dol), HookedAt(Loaded(m, dol), hook, hook.addr))
  {
    SavedCommutes(m, h, dol, hook, k, at);
    StagedWriteCommutes(Saved(m, hook, at), h, dol, k, hook.addr, WordsBytes(hook.toCustom), at);
  }

  /** Installing in place looks only at what no staged byte can disturb. */
  lemma RealHookRespectsAgreement(h: Header, dol: nat, m: Space, m': Space, hook: Hook)
    requires StagingSafe(h, dol) && HookFits(h, dol, hook) && AgreeOutside(h, dol, m, m')
    ensures AgreeOutside(h, dol, HookedReal(m, hook), HookedReal(m', hook))
  {
    var k := FirstCovering(h.sections, hook.addr).value;
    forall x | hook.addr <= x < hook.addr + WINDOW
      ensures m'[x] == m[x]
    {
      assert InTarget(h.sections[k], x);
      assert Overwritten(h, x) && !Staged(h, dol, x);
    }
    SameSlice(m, hook.addr, m', hook.addr, WINDOW);
  }

  ghost predicate AllFit(h: Header, dol: nat, hooks: seq<Hook>) {
    forall k :: k in hooks ==> HookFits(h, dol, k)
  }

  lemma {:induction false} AllHooksCommute(m: Space, dol: nat, hooks: seq<Hook>)
    requires WellLaidOut(HeaderAt(m, dol), dol) && AllFit(HeaderAt(m, dol), dol, hooks)
    ensures AllHookedStaged(m, dol, hooks).Some?
    ensures var h, m' := HeaderAt(m, dol), AllHookedStaged(m, dol, hooks).value;
            HeaderAt(m', dol) == h && AgreeOutside(h, dol, Loaded(m', dol), AllHookedReal(Loaded(m, dol), hooks))
  {
    if hooks != [] {
      var h, front, last := HeaderAt(m, dol), hooks[..|hooks| - 1], hooks[|hooks| - 1];
      AllHooksCommute(m, dol, front);
      var before := AllHookedStaged(m, dol, front).value;
      HookCommutes(before, dol, last);
      RealHookRespectsAgreement(h, dol, Loaded(before, dol), AllHookedReal(Loaded(m, dol), front), last);
    }
  }

  // ---- Memory patches after the hooks. ----

  /** No byte of the patched word is part of the staged file. */
  predicate PatchOutside(h: Header, dol: nat, p: MemoryPatch) {
    p.addr + 4 <= WORD && forall i :: p.addr <= i < p.addr + 4 ==> !Staged(h, dol, i)
  }

  /** No byte of the patched word belongs to the hook's window or trampoline. */
  predicate PatchApartFrom(p: MemoryPatch, hook: Hook) {
    && p.addr + 4 <= WORD
    && Apart(p.addr, 4, hook.addr, WINDOW)
    && Apart(p.addr, 4, hook.trampoline, 2 * WINDOW)
  }

  lemma PatchRespectsAgreement(h: Header, dol: nat, m: Space, m': Space, p: MemoryPatch)
    requires PatchOutside(h, dol, p) && AgreeOutside(h, dol, m, m')
    ensures AgreeOutside(h, dol, Patched(m, p), Patched(m', p))
  {
    forall i | p.addr <= i < p.addr + 4
      ensures m'[i] == m[i]
    {
      assert !Staged(h, dol, i);
    }
    SameWord(m, m', p.addr);
  }

  lemma {:induction false} PatchesRespectAgreement(h: Header, dol: nat, m: Space, m': Space, patches: seq<MemoryPatch>)
    requires AgreeOutside(h, dol, m, m') && forall p :: p in patches ==> PatchOutside(h, dol, p)
    ensures AgreeOutside(h, dol, AllPatched(m, patches), AllPatched(m', patches))
  {
    if patches != [] {
      var front := patches[..|patches| - 1];
      PatchesRespectAgreement(h, dol, m, m', front);
      PatchRespectsAgreement(h, dol, AllPatched(m, front), AllPatched(m', front), patches[|patches| - 1]);
    }
  }

  lemma PatchAfterHook(m: Space, p: MemoryPatch, hook: Hook)
    requires HookOk(hook) && PatchApartFrom(p, hook)
    ensures Patched(HookedReal(m, hook), p) == HookedReal(Patched(m, p), hook)
  {
    if hook.addr != 0 {
      PatchAfterSaved(m, p, hook);
      PatchAfterWritten(Saved(m, hook, hook.addr), p, hook.addr, WordsBytes(hook.toCustom));
    }
  }

  lemma PatchAfterSaved(m: Space, p: MemoryPatch, hook: Hook)
    requires HookOk(hook) && PatchApartFrom(p, hook)
    ensures Patched(Saved(m, hook, hook.addr), p) == Saved(Patched(m, p), hook, hook.addr)
  {
    SameSlice(m, hook.addr, Patched(m, p), hook.addr, WINDOW);
    PatchAfterWritten(m, p, hook.trampoline, m[hook.addr..hook.addr + WINDOW] + WordsBytes(hook.backjump));
  }

  lemma PatchAfterWritten(m: Space, p: MemoryPatch, at: nat, bytes: seq<byte>)
    requires p.addr + 4 <= WORD && at + |bytes| <= WORD && Apart(p.addr, 4, at, |bytes|)
    ensures Patched(Written(m, at, bytes), p) == Written(Patched(m, p), at, bytes)
  {
    SameWord(m, Written(m, at, bytes), p.addr);
    StoredAndWritten(m, p.addr, p.value, at, bytes);
  }

  /** Writes to disjoint ranges commute. */
  lemma StoredAndWritten(m: Space, a: nat, w: word, at: nat, bytes: seq<byte>)
    requires a + 4 <= WORD && at + |bytes| <= WORD && Apart(a, 4, at, |bytes|)
    ensures WordStored(Written(m, at, bytes), a, w) == Written(WordStored(m, a, w), at, bytes)
  {
  }

  lemma {:induction false} PatchAfterHooks(m: Space, p: MemoryPatch, hooks: seq<Hook>)
    requires forall k :: k in hooks ==> HookOk(k) && PatchApartFrom(p, k)
    ensures Patched(AllHookedReal(m, hooks), p) == AllHookedReal(Patched(m, p), hooks)
  {
    if hooks != [] {
      var front, last := hooks[..|hooks| - 1], hooks[|hooks| - 1];
      PatchAfterHooks(m, p, front);
      PatchAfterHook(AllHookedReal(m, front), p, last);
    }
  }

  lemma {:induction false} PatchesAfterHooks(m: Space, patches: seq<MemoryPatch>, hooks: seq<Hook>)
    requires forall k :: k in hooks ==> HookOk(k)
    requires forall p, k :: p in patches && k in hooks ==> PatchApartFrom(p, k)
    ensures AllPatched(AllHookedReal(m, hooks), patches) == AllHookedReal(AllPatched(m, patches), hooks)
  {
    if patches != [] {
      var front, last := patches[..|patches| - 1], patches[|patches| - 1];
      PatchesAfterHooks(m, front, hooks);
      PatchAfterHooks(AllPatched(m, front), last, hooks);
    }
  }

  /**
   * Patching the functions in the staged DOL and then running `patch_dol` leaves, at every address outside the
   * staged file, what running `patch_dol` first and then patching at the real addresses would leave.
   */
  lemma StagedPatchingIsRealPatching(m: Space, dol: nat, hooks: seq<Hook>, patches: seq<MemoryPatch>)
    requires WellLaidOut(HeaderAt(m, dol), dol) && AllFit(HeaderAt(m, dol), dol, hooks)
    requires forall p :: p in patches ==> PatchOutside(HeaderAt(m, dol), dol, p)
    requires forall p, k :: p in patches && k in hooks ==> PatchApartFrom(p, k)
    ensures AllHookedStaged(m, dol, hooks).Some?
    ensures AgreeOutside(HeaderAt(m, dol), dol,
                         AllPatched(Loaded(AllHookedStaged(m, dol, hooks).value, dol), patches),
                         AllHookedReal(AllPatched(Loaded(m, dol), patches), hooks))
  {
    AllHooksCommute(m, dol, hooks);
    PatchesRespectAgreement(HeaderAt(m, dol), dol, Loaded(AllHookedStaged(m, dol, hooks).value, dol),
                            AllHookedReal(Loaded(m, dol), hooks), patches);
    PatchesAfterHooks(Loaded(m, dol), patches, hooks);
  }

  /** Wherever the memory patches fall, the game starts from the hooks installed in place and then the patches. */
  lemma StagedHooksThenPatches(m: Space, dol: nat, hooks: seq<Hook>, patches: seq<MemoryPatch>)
    requires WellLaidOut(HeaderAt(m, dol), dol) && AllFit(HeaderAt(m, dol), dol, hooks)
    requires forall p :: p in patches ==> PatchOutside(HeaderAt(m, dol), dol, p)
    ensures AllHookedStaged(m, dol, hooks).Some?
    ensures AgreeOutside(HeaderAt(m, dol), dol,
                         AllPatched(Loaded(AllHookedStaged(m, dol, hooks).value, dol), patches),
                         AllPatched(AllHookedReal(Loaded(m, dol), hooks), patches))
  {
    AllHooksCommute(m, dol, hooks);
    PatchesRespectAgreement(HeaderAt(m, dol), dol, Loaded(AllHookedStaged(m, dol, hooks).value, dol),
                            AllHookedReal(Loaded(m, dol), hooks), patches);
  }

  // ---- A patch of a hooked word ----

  lemma WordOfStored(m: Space, a: nat, w: word)
    requires a + 4 <= WORD
    ensures WordAt(WordStored(m, a, w), a) == w
    ensures WordAt(m, a) == w ==> WordStored(m, a, w) == m
  {
    BigEndianOfWordBytes(w);
    if WordAt(m, a) == w {
      SameBytes(m[a], m[a + 1], m[a + 2], m[a + 3], w);
    }
  }

  lemma UpperBytes(b0: byte, b1: byte, b2: byte, b3: byte, w: word)
    requires BigEndian(b0, b1, b2, b3) == w
    ensures w / 0x100_0000 == b0 && w / 0x1_0000 == b0 * 0x100 + b1 && w / 0x100 == b0 * 0x1_0000 + b1 * 0x100 + b2
  {
  }

  lemma SameBytes(b0: byte, b1: byte, b2: byte, b3: byte, w: word)
    requires BigEndian(b0, b1, b2, b3) == w
    ensures WordBytes(w) == [b0, b1, b2, b3]
  {
    UpperBytes(b0, b1, b2, b3, w);
    var x, y := b0 * 0x100 + b1, b0 * 0x1_0000 + b1 * 0x100 + b2;
    assert x % 0x100 == b1 && y % 0x100 == b2 && w % 0x100 == b3;
  }

  /** A hook whose window and trampoline are apart, and one of its four words. */
  predicate HookedWord(hook: Hook, i: nat) {
    HookOk(hook) && hook.addr != 0 && i < 4 && Apart(hook.addr, WINDOW, hook.trampoline, 2 * WINDOW)
  }

  /** What a hook leaves behind, as far as its own words go. */
  predicate HookLeft(m: Space, m': Space, hook: Hook)
    requires HookOk(hook)
  {
    && m'[hook.addr..hook.addr + WINDOW] == WordsBytes(hook.toCustom)
    && m'[hook.trampoline..hook.trampoline + WINDOW] == m[hook.addr..hook.addr + WINDOW]
  }

  lemma HookLeaves(m: Space, hook: Hook)
    requires HookedWord(hook, 0)
    ensures HookLeft(m, HookedReal(m, hook), hook)
  {
    var m', kept := HookedReal(m, hook), m[hook.addr..hook.addr + WINDOW];
    assert m'[hook.addr..hook.addr + WINDOW] == WordsBytes(hook.toCustom);
    assert m'[hook.trampoline..hook.trampoline + WINDOW] == kept;
  }

  lemma WindowWord(m: Space, m': Space, hook: Hook, i: nat, a: nat)
    requires HookedWord(hook, i) && HookLeft(m, m', hook) && a == hook.addr + 4 * i
    ensures WordAt(m', a) == hook.toCustom[i]
  {
    assert |hook.toCustom| == 4;
    WordAtWordsBytes(m', hook.addr, hook.toCustom, i);
  }

  lemma TrampolineWord(m: Space, m': Space, hook: Hook, i: nat, a: nat, t: nat)
    requires HookedWord(hook, i) && HookLeft(m, m', hook) && a == hook.addr + 4 * i && t == hook.trampoline + 4 * i
    ensures WordAt(m', t) == WordAt(m, a)
  {
    EqualSlices(m, hook.addr, m', hook.trampoline, WINDOW);
    SameWordAt(m, a, m', t);
  }

  /** The patch leaves a word as it is: it does not apply to it, or stores the same. */
  predicate Keeps(p: MemoryPatch, w: word) {
    AppliesTo(p, w) ==> p.value == w
  }

  lemma PatchedWord(m: Space, p: MemoryPatch)
    requires p.addr + 4 <= WORD
    ensures WordAt(Patched(m, p), p.addr) == WordAt(m, p.addr) <==> Keeps(p, WordAt(m, p.addr))
    ensures Keeps(p, WordAt(m, p.addr)) ==> Patched(m, p) == m
  {
    WordOfStored(m, p.addr, p.value);
  }

  /** Two memories, one hooked before and one after the patch: equal only if the patch keeps both words. */
  lemma EqualOnlyIfKept(m: Space, hooked: Space, patched: Space, both: Space, hook: Hook, p: MemoryPatch, i: nat,
                        t: nat)
    requires HookedWord(hook, i) && p.addr == hook.addr + 4 * i && t == hook.trampoline + 4 * i
    requires HookLeft(m, hooked, hook) && patched == Patched(m, p) && HookLeft(patched, both, hook)
    requires Patched(hooked, p) == both
    ensures Keeps(p, hook.toCustom[i]) && Keeps(p, WordAt(m, p.addr))
  {
    WindowWord(m, hooked, hook, i, p.addr);
    WindowWord(patched, both, hook, i, p.addr);
    PatchedWord(hooked, p);
    TrampolineWord(patched, both, hook, i, p.addr, t);
    TrampolineWord(m, hooked, hook, i, p.addr, t);
    PatchedWord(m, p);
  }

  lemma KeptCommutes(m: Space, hook: Hook, p: MemoryPatch, i: nat)
    requires HookedWord(hook, i) && p.addr == hook.addr + 4 * i
    requires Keeps(p, hook.toCustom[i]) && Keeps(p, WordAt(m, p.addr))
    ensures Patched(HookedReal(m, hook), p) == HookedReal(Patched(m, p), hook)
  {
    HookLeaves(m, hook);
    WindowWord(m, HookedReal(m, hook), hook, i, p.addr);
    PatchedWord(m, p);
    PatchedWord(HookedReal(m, hook), p);
  }

  /**
   * A patch of a hooked word, conditional or not, commutes with the hook if and only if it keeps both words the
   * place holds: the hook's own and the one the hook moved to the trampoline.
   */
  lemma PatchOfHookedWordCommutesIff(m: Space, hook: Hook, p: MemoryPatch, i: nat)
    requires HookedWord(hook, i) && p.addr == hook.addr + 4 * i
    ensures (Patched(HookedReal(m, hook), p) == HookedReal(Patched(m, p), hook))
              <==> (Keeps(p, hook.toCustom[i]) && Keeps(p, WordAt(m, p.addr)))
  {
    if Patched(HookedReal(m, hook), p) == HookedReal(Patched(m, p), hook) {
      HookLeaves(m, hook);
      HookLeaves(Patched(m, p), hook);
      EqualOnlyIfKept(m, HookedReal(m, hook), Patched(m, p), HookedReal(Patched(m, p), hook), hook, p, i,
                      hook.trampoline + 4 * i);
    }
    if Keeps(p, hook.toCustom[i]) && Keeps(p, WordAt(m, p.addr)) {
      KeptCommutes(m, hook, p, i);
    }
  }

  /** An unconditional one does so only if it stores the hook's own word over that same word. */
  lemma UnconditionalPatchCommutesIff(m: Space, hook: Hook, p: MemoryPatch, i: nat)
    requires HookedWord(hook, i) && p.addr == hook.addr + 4 * i && p.original.None?
    ensures (Patched(HookedReal(m, hook), p) == HookedReal(Patched(m, p), hook))
              <==> (p.value == hook.toCustom[i] == WordAt(m, p.addr))
  {
    PatchOfHookedWordCommutesIff(m, hook, p, i);
  }
}
