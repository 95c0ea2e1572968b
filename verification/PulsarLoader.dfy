// source/loader/binary_loader.c, lines 41-67: copying Loader.pul into the staged game.

module PulsarLoader {
  import opened Bits
  import opened CStrings
  import opened Memory
  import opened Dol
  import opened Hooks

  const CHUNK: nat := 4096

  /** Outside every section is fatal; a file that cannot be opened is an error; otherwise the file is in place. */
  datatype LoadResult = OutsideSections | CannotOpen | Copied

  function ResultOf(m: Space, dol: nat, addr: word, file: Option<seq<byte>>): LoadResult {
    if StagedAddress(HeaderAt(m, dol), addr).None? then OutsideSections
    else if file.None? then CannotOpen
    else Copied
  }

  /** The copy has room: nothing in the source checks this. */
  predicate FitsAt(m: Space, dol: nat, addr: word, file: Option<seq<byte>>) {
    ResultOf(m, dol, addr, file).Copied? ==> StagedAddress(HeaderAt(m, dol), addr).value + |file.value| <= WORD
  }

  /** `rrc_binary_load_pulsar_loader` */
  method LoadPulsarLoader(mem: array<byte>, dol: nat, realLoaderAddr: word, file: Option<seq<byte>>)
    returns (result: LoadResult)
    requires mem.Length == WORD && FitsAt(mem[..], dol, realLoaderAddr, file)
    modifies mem
    ensures result == ResultOf(old(mem[..]), dol, realLoaderAddr, file)
    ensures if result.Copied? then
              mem[..] == Written(old(mem[..]), StagedAddress(HeaderAt(old(mem[..]), dol), realLoaderAddr).value,
                                 file.value)
            else mem[..] == old(mem[..])
  {
    var virtLoaderAddr, sectionIndex := FindSectionByAddr(HeaderAt(mem[..], dol).sections, realLoaderAddr);
    if sectionIndex == -1 {
      return OutsideSections;
    }
    if file.None? {
      return CannotOpen;
    }
    CopyFile(mem, virtLoaderAddr, file.value);
    result := Copied;
  }

  /** The `fread` loop, 4096 bytes at a time. */
  method CopyFile(mem: array<byte>, start: nat, file: seq<byte>)
    requires mem.Length == WORD && start + |file| <= WORD
    modifies mem
    ensures mem[..] == Written(old(mem[..]), start, file)
  {
    ghost var before: Space := mem[..];
    var done := 0;
    while done < |file|
      invariant done <= |file|
      invariant mem[..] == Written(before, start, file[..done])
    {
      var read := if |file| - done < CHUNK then |file| - done else CHUNK;
      CopyIn(mem, start + done, file[done..done + read]);
      WrittenTwice(before, start, file[..done], file[done..done + read]);
      assert file[..done] + file[done..done + read] == file[..done + read];
      done := done + read;
    }
    assert file[..done] == file;
  }

  lemma WrittenTwice(m: Space, a: nat, x: seq<byte>, y: seq<byte>)
    requires a + |x| + |y| <= WORD
    ensures Written(Written(m, a, x), a + |x|, y) == Written(m, a, x + y)
  {
  }

  /** After `patch_dol` the code stands where it would if it had been copied to its real address. */
  lemma StagedCopyIsRealCopy(m: Space, h: Header, dol: nat, addr: word, file: seq<byte>) returns (at: nat)
    requires h == HeaderAt(m, dol) && WellLaidOut(h, dol)
    requires FirstCovering(h.sections, addr).Some?
    requires WithinSection(h.sections[FirstCovering(h.sections, addr).value], addr, |file|)
    ensures StagedAddress(h, addr) == Some(at) && at + |file| <= WORD && addr + |file| <= WORD
    ensures AgreeOutside(h, dol, Loaded(Written(m, at, file), dol), Written(Loaded(m, dol), addr, file))
  {
    var k := FirstCovering(h.sections, addr).value;
    assert NoWrap(h.sections[k]);
    at := h.sections[k].src + (addr - h.sections[k].addr);
    FoundAt(h, addr, k, |file|, at);
    StagedWriteCommutes(m, h, dol, k, addr, file, at);
  }
}
