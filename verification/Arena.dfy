// source/loader/riivo_patch_loader.c, lines 35-43, 373-375 and 525-535: carving regions downward from mem1.

/** The arena the loader leaves to the game: strings, memory patches and tables below the top of MEM1. */
module Arena {
  import opened CStrings
  import opened Bits
  import opened Alignment

  /** A carved region and the bytes it should hold. */
  datatype Region = Region(addr: nat, bytes: seq<char>)

  const MEMORY_PATCH_SIZE: nat := 16
  const MAX_MEMORY_PATCHES: nat := 128
  const TABLE_ALIGNMENT: nat := 4

  ghost predicate Holds(mem: seq<char>, r: Region) {
    r.addr + |r.bytes| <= |mem| && mem[r.addr..r.addr + |r.bytes|] == r.bytes
  }

  /** Regions lie one below the other between `bottom` and `top`. */
  ghost predicate Stacked(regions: seq<Region>, bottom: nat, top: nat) {
    && bottom <= top
    && (forall i :: 0 <= i < |regions| ==> bottom <= regions[i].addr && regions[i].addr + |regions[i].bytes| <= top)
    && (forall i, j :: 0 <= i < j < |regions| ==> regions[j].addr + |regions[j].bytes| <= regions[i].addr)
  }

  lemma HeldElsewhere(mem: seq<char>, mem': seq<char>, addr: nat, n: nat, r: Region)
    requires Holds(mem, r) && |mem'| == |mem| && (r.addr + |r.bytes| <= addr || addr + n <= r.addr)
    requires forall i :: 0 <= i < |mem| && !(addr <= i < addr + n) ==> mem'[i] == mem[i]
    ensures Holds(mem', r)
  {
    assert mem'[r.addr..r.addr + |r.bytes|] == mem[r.addr..r.addr + |r.bytes|];
  }

  lemma AllHeldElsewhere(mem: seq<char>, mem': seq<char>, addr: nat, n: nat, regions: seq<Region>)
    requires |mem'| == |mem| && forall i :: 0 <= i < |regions| ==> Holds(mem, regions[i]) && addr + n <= regions[i].addr
    requires forall i :: 0 <= i < |mem| && !(addr <= i < addr + n) ==> mem'[i] == mem[i]
    ensures forall i :: 0 <= i < |regions| ==> Holds(mem', regions[i])
  {
    forall i | 0 <= i < |regions|
      ensures Holds(mem', regions[i])
    {
      HeldElsewhere(mem, mem', addr, n, regions[i]);
    }
  }

  lemma StackedBelow(regions: seq<Region>, bottom: nat, top: nat, r: Region)
    requires Stacked(regions, bottom, top) && r.addr + |r.bytes| <= bottom
    ensures Stacked(regions + [r], r.addr, top)
  {
  }

  lemma RecordStored(mem: seq<char>, mem': seq<char>, r: Region, at: nat, record: seq<char>)
    requires Holds(mem, r) && |mem'| == |mem| && at + |record| <= |r.bytes|
    requires forall i :: 0 <= i < |record| ==> mem'[r.addr + at + i] == record[i]
    requires forall j :: 0 <= j < |mem| && !(r.addr + at <= j < r.addr + at + |record|) ==> mem'[j] == mem[j]
    ensures Holds(mem', Region(r.addr, r.bytes[..at] + record + r.bytes[at + |record|..]))
  {
    var bytes := r.bytes[..at] + record + r.bytes[at + |record|..];
    forall i | 0 <= i < |bytes| ensures mem'[r.addr + i] == bytes[i] {
      assert mem[r.addr..r.addr + |r.bytes|][i] == mem[r.addr + i];
      if at <= i < at + |record| {
        assert mem'[r.addr + at + (i - at)] == record[i - at];
      }
    }
  }

  class Mem1 {
    const mem: array<char>
    const initial: nat
    var mem1: nat
    ghost var regions: seq<Region>

    ghost predicate Valid()
      reads this, mem
    {
      && initial <= mem.Length < WORD
      && Stacked(regions, mem1, initial)
      && (forall i :: 0 <= i < |regions| ==> Holds(mem[..], regions[i]))
    }

    constructor (mem: array<char>, initial: nat)
      requires initial <= mem.Length < WORD
      ensures Valid() && this.mem == mem && this.initial == initial && mem1 == initial && regions == []
    {
      this.mem, this.initial, this.mem1 := mem, initial, initial;
      regions := [];
    }

    /** Copies bytes just below everything carved so far. */
    method Carve(addr: nat, bytes: seq<char>)
      requires Valid() && addr + |bytes| <= mem1
      modifies this, mem
      ensures Valid() && mem1 == addr
      ensures regions == old(regions) + [Region(addr, bytes)]
      ensures forall i :: 0 <= i < mem.Length && !(addr <= i < addr + |bytes|) ==> mem[i] == old(mem[i])
    {
      forall i | 0 <= i < |bytes| {
        mem[addr + i] := bytes[i];
      }
      StackedBelow(regions, mem1, initial, Region(addr, bytes));
      AllHeldElsewhere(old(mem[..]), mem[..], addr, |bytes|, regions);
      assert mem[..][addr..addr + |bytes|] == bytes;
      mem1 := addr;
      regions := regions + [Region(addr, bytes)];
    }

    /** `bump_alloc_string`: a NUL-terminated copy below everything else. */
    method BumpAllocString(src: CString) returns (dest: nat)
      requires Valid() && |src| + 1 <= mem1
      modifies this, mem
      ensures Valid() && mem1 == dest == old(mem1) - (|src| + 1)
      ensures regions == old(regions) + [Region(dest, src + ['\0'])]
    {
      dest := mem1 - (|src| + 1);
      Carve(dest, src + ['\0']);
    }

    /** The block reserved for 128 memory patches of 16 bytes before anything else is parsed. */
    method ReserveMemoryPatches() returns (dest: nat)
      requires Valid() && 2048 <= mem1
      modifies this, mem
      ensures Valid() && mem1 == dest == old(mem1) - 2048
      ensures |regions| == |old(regions)| + 1 && regions[..|old(regions)|] == old(regions)
      ensures regions[|old(regions)|].addr == dest
      ensures |regions[|old(regions)|].bytes| == 2048
      ensures old(mem1) % 4 == 0 ==> dest % 4 == 0
    {
      dest := mem1 - MEMORY_PATCH_SIZE * MAX_MEMORY_PATCHES;
      Carve(dest, mem[dest..dest + MEMORY_PATCH_SIZE * MAX_MEMORY_PATCHES]);
    }

    /** Fills one record of a region carved earlier; strings interned since are not disturbed. */
    method StoreRecord(ghost region: nat, base: nat, index: nat, record: seq<char>)
      requires Valid() && region < |regions| && regions[region].addr == base
      requires |record| == MEMORY_PATCH_SIZE && (index + 1) * MEMORY_PATCH_SIZE <= |regions[region].bytes|
      modifies this`regions, mem
      ensures Valid() && |regions| == |old(regions)|
      ensures forall i :: 0 <= i < |regions| && i != region ==> regions[i] == old(regions[i])
      ensures regions[region].addr == base
      ensures var at := index * MEMORY_PATCH_SIZE; var bytes := old(regions[region].bytes);
              regions[region].bytes == bytes[..at] + record + bytes[at + MEMORY_PATCH_SIZE..]
    {
      ghost var at := index * MEMORY_PATCH_SIZE;
      ghost var before := regions[region];
      assert Holds(mem[..], before);
      forall i | 0 <= i < |record| {
        mem[base + index * MEMORY_PATCH_SIZE + i] := record[i];
      }
      ghost var after := Region(base, before.bytes[..at] + record + before.bytes[at + MEMORY_PATCH_SIZE..]);
      RecordStored(old(mem[..]), mem[..], before, at, record);
      forall i | 0 <= i < |regions| && i != region
        ensures Holds(mem[..], regions[i])
      {
        HeldElsewhere(old(mem[..]), mem[..], base + at, |record|, regions[i]);
      }
      regions := regions[region := after];
    }

    /** Copies a finished table to the highest aligned address below everything else. */
    method PackTable(bytes: seq<char>) returns (dest: nat)
      requires Valid() && |bytes| + TABLE_ALIGNMENT - 1 <= mem1
      modifies this, mem
      ensures Valid() && mem1 == dest && dest % TABLE_ALIGNMENT == 0
      ensures old(mem1) - |bytes| - TABLE_ALIGNMENT < dest <= old(mem1) - |bytes|
      ensures regions == old(regions) + [Region(dest, bytes)]
    {
      dest := AlignDown(mem1 - |bytes|, TABLE_ALIGNMENT);
      Powers();
      AlignDownIsFloor(mem1 - |bytes|, 2);
      Carve(dest, bytes);
    }

    /** The end of the parse: SD entries, full-path table, file-name table, each aligned. */
    method PackDisc(sdFiles: seq<char>, replacements: seq<char>, filenameReplacements: seq<char>)
      returns (sdAddr: nat, fullAddr: nat, nameAddr: nat)
      requires Valid()
      requires |sdFiles| + |replacements| + |filenameReplacements| + 3 * (TABLE_ALIGNMENT - 1) <= mem1
      modifies this, mem
      ensures Valid()
      ensures regions == old(regions) +
                [Region(sdAddr, sdFiles), Region(fullAddr, replacements), Region(nameAddr, filenameReplacements)]
      ensures sdAddr % TABLE_ALIGNMENT == 0 && fullAddr % TABLE_ALIGNMENT == 0 && nameAddr % TABLE_ALIGNMENT == 0
    {
      sdAddr := PackTable(sdFiles);
      fullAddr := PackTable(replacements);
      nameAddr := PackTable(filenameReplacements);
    }
  }

  /** The text a C pointer into memory denotes. */
  function CStringAt(mem: seq<char>, addr: nat): seq<char>
    decreases |mem| - addr
  {
    if addr >= |mem| || mem[addr] == '\0' then [] else [mem[addr]] + CStringAt(mem, addr + 1)
  }

  /** Whatever is carved or stored later, an interned string still reads back as the text that was interned. */
  lemma {:induction false} InternedStringReadsBack(mem: seq<char>, addr: nat, text: CString)
    requires Holds(mem, Region(addr, text + ['\0']))
    ensures CStringAt(mem, addr) == text
    decreases |text|
  {
    var bytes := text + ['\0'];
    assert forall i :: 0 <= i < |bytes| ==> mem[addr + i] == mem[addr..addr + |bytes|][i] == bytes[i];
    assert mem[addr + 0] == bytes[0];
    if text != [] {
      var rest := text[1..];
      assert mem[addr + 1..addr + 1 + |rest + ['\0']|] == rest + ['\0'];
      InternedStringReadsBack(mem, addr + 1, rest);
    }
  }

  /** No byte belongs to two regions. */
  lemma RegionsDisjoint(regions: seq<Region>, bottom: nat, top: nat, i: nat, j: nat, addr: nat)
    requires Stacked(regions, bottom, top) && i < |regions| && j < |regions|
    requires regions[i].addr <= addr < regions[i].addr + |regions[i].bytes|
    requires regions[j].addr <= addr < regions[j].addr + |regions[j].bytes|
    ensures i == j && bottom <= addr < top
  {
  }
}
