// source/loader/loader_addrs.h and binary_loader.c against runtime-ext/base.ld and main.c: what is linked where.

/** The launcher's tables against the linker script of the code they lead to, function by function. */
module HookLaws {
  import opened Bits
  import opened CStrings
  import opened Memory
  import opened Ppc
  import opened Dol
  import opened Hooks
  import opened DvdHooks
  import opened LaunchSequence

  /** The game's functions that are replaced. */
  datatype DvdFunction = ConvertPathToEntrynum | FastOpen | Open | ReadPrio | Close

  /** `enum rrc_dvd_function` */
  function Number(f: DvdFunction): (i: nat)
    ensures i < 5
  {
    match f
    case ConvertPathToEntrynum => 0
    case FastOpen => 1
    case Open => 2
    case ReadPrio => 3
    case Close => 4
  }

  /** Where the linker script of the runtime extension puts the section of the replacement. */
  function LinkedAt(f: DvdFunction): word {
    match f
    case ConvertPathToEntrynum => 0x81782e60
    case Open => 0x81782ea0
    case FastOpen => 0x81782ee0
    case ReadPrio => 0x81782f20
    case Close => 0x81782f60
  }

  /** Where it tells the runtime extension to find the trampoline; Close calls another function of the game instead. */
  function TrampolineLinkedAt(f: DvdFunction): Option<word> {
    match f
    case ConvertPathToEntrynum => Some(0x81782d60)
    case FastOpen => Some(0x81782d60 + 32)
    case Open => Some(0x81782d60 + 64)
    case ReadPrio => Some(0x81782d60 + 96)
    case Close => None
  }

  /** The launcher and the runtime extension agree on every function. */
  lemma TablesAgreeWithLinker(rg: Region, f: DvdFunction)
    ensures CustomEntries()[Number(f)] == LinkedAt(f)
    ensures TrampolineLinkedAt(f).Some? ==> HookFor(rg, Number(f)).trampoline == TrampolineLinkedAt(f).value
  {
  }

  /** The function's address in the European game. */
  function PalAddress(f: DvdFunction): word {
    match f
    case ConvertPathToEntrynum => 0x8015df4c
    case FastOpen => 0x8015e254
    case Open => 0x8015e2bc
    case ReadPrio => 0x8015e834
    case Close => 0x8015e568
  }

  /** How much lower this part of the game lies in the other two. */
  function Shift(letter: char): nat {
    match letter
    case 'E' => 0xa0
    case 'J' => 0xe0
    case _ => 0
  }

  /** Exactly three letters are supported, and each has the table of its game. */
  lemma RegionOfLetter(letter: char, f: DvdFunction)
    ensures RegionOf(letter).Some? <==> letter in "PEJ"
    ensures RegionOf(letter).Some? ==> Addresses(RegionOf(letter).value)[Number(f)] == PalAddress(f) - Shift(letter)
  {
    var letters := "PEJ";
    assert letters[0] == 'P' && letters[1] == 'E' && letters[2] == 'J';
  }

  /** In the game's first memory, each function of the letter's game leads to its own replacement. */
  lemma FunctionReachesItsReplacement(m: Space, h: Header, dol: nat, letter: char, k: nat, addr: word, at: nat,
                                      file: seq<byte>, patches: seq<MemoryPatch>, f: DvdFunction, c: Cpu)
    requires letter in "PEJ" && RegionOf(letter).Some? && |c.gpr| == 32
    requires h == HeaderAt(m, dol) && WellLaidOut(h, dol) && AllFit(h, dol, HooksFor(RegionOf(letter).value))
    requires FileFits(h, k, addr, |file|, at, HooksFor(RegionOf(letter).value))
    requires PatchesElsewhere(h, dol, HooksFor(RegionOf(letter).value), patches)
    requires c.pc == PalAddress(f) - Shift(letter)
    ensures at + |file| <= WORD && AllHookedStaged(m, dol, HooksFor(RegionOf(letter).value)).Some?
    ensures Run(FirstMemory(m, dol, RegionOf(letter).value, at, file, patches), c, 4)
              == Some(Cpu(LinkedAt(f), c.gpr[9 := LinkedAt(f)], LinkedAt(f)))
  {
    var rg := RegionOf(letter).value;
    RegionOfLetter(letter, f);
    TablesAgreeWithLinker(rg, f);
    HooksWorkWithLoader(m, h, dol, rg, k, addr, at, file, patches, Number(f), c);
  }

  /** The lookup of a section: the first whose range, its end wrapping at 32 bits, holds the address. */
  lemma SectionFoundIs(sections: seq<Section>, addr: nat, k: nat)
    requires k < |sections|
    ensures FirstCovering(sections, addr) == Some(k) <==>
              && sections[k].addr <= addr < (sections[k].addr + sections[k].size) % 0x1_0000_0000
              && forall j :: 0 <= j < k ==>
                   !(sections[j].addr <= addr < (sections[j].addr + sections[j].size) % 0x1_0000_0000)
  {
    assert forall j :: 0 <= j < |sections| ==>
        (Covers(sections[j], addr)
         <==> sections[j].addr <= addr < (sections[j].addr + sections[j].size) % 0x1_0000_0000);
    var found := FirstCovering(sections, addr);
    if found.Some? && found.value < k {
      assert Covers(sections[found.value], addr);
    }
  }

  /** And the staged place: as far behind the section's staged start as the address is behind its own. */
  lemma StagedPlaceIs(s: Section, addr: nat)
    requires s.addr <= addr
    ensures StagedPlace(s, addr) == (s.src + (addr - s.addr)) % 0x1_0000_0000
  {
  }
}
