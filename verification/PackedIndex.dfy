// source/loader/riivo_patch_loader.c, lines 140-230 and 515-545: the index as it lies in memory for the game.

/** Registration with its strings interned below mem1, and the packed tables the game reads through pointers. */
module PackedIndex {
  import opened Bits
  import opened CStrings
  import opened Vecs
  import opened Arena
  import opened PatchLoader
  import opened DvdLookup
  import opened RiivoIndex

  // ---- Records in memory (shared/riivo.h, lines 28-53) ----

  const SD_FILE_SIZE: nat := 8
  const REPLACEMENT_SIZE: nat := 12

  function WordChars(w: u32): (r: seq<char>)
    ensures |r| == 4
  {
    [(w / 0x100_0000) as char, (w / 0x1_0000 % 0x100) as char, (w / 0x100 % 0x100) as char, (w % 0x100) as char]
  }

  /** The big-endian word at an address; zero outside memory. */
  function WordIn(mem: seq<char>, a: nat): nat {
    if a + 4 > |mem| then 0
    else mem[a] as int * 0x100_0000 + mem[a + 1] as int * 0x1_0000 + mem[a + 2] as int * 0x100 + mem[a + 3] as int
  }

  function SdFileChars(path: u32): (r: seq<char>)
    ensures |r| == SD_FILE_SIZE
  {
    WordChars(path) + WordChars(0)
  }

  function ReplacementChars(disc: u32, hash: u32, entrynum: u32): (r: seq<char>)
    ensures |r| == REPLACEMENT_SIZE
  {
    WordChars(disc) + WordChars(hash) + WordChars(entrynum)
  }

  /** The record at an address stands for this replacement: its pointer leads to the key's text. */
  predicate Denotes(mem: seq<char>, a: nat, r: Replacement) {
    && CStringAt(mem, WordIn(mem, a)) == r.disc
    && WordIn(mem, a + 4) == r.hash && WordIn(mem, a + 8) == r.entrynum
  }

  predicate DenotesTable(mem: seq<char>, a: nat, table: seq<Replacement>) {
    forall i :: 0 <= i < |table| ==> Denotes(mem, a + REPLACEMENT_SIZE * i, table[i])
  }

  /** SD entries: a pointer to the path, and no open file. */
  predicate DenotesPaths(mem: seq<char>, a: nat, paths: seq<CString>) {
    forall i :: 0 <= i < |paths| ==>
      CStringAt(mem, WordIn(mem, a + SD_FILE_SIZE * i)) == paths[i] && WordIn(mem, a + SD_FILE_SIZE * i + 4) == 0
  }

  /** Memory holds this index at these addresses. */
  predicate DenotesDisc(mem: seq<char>, sd: nat, full: nat, name: nat, disc: RiivoDisc) {
    DenotesPaths(mem, sd, disc.sdFiles) && DenotesTable(mem, full, disc.full) && DenotesTable(mem, name, disc.byName)
  }

  // ---- Reading words and records back ----

  lemma WordReadsBack(mem: seq<char>, a: nat, w: u32)
    requires a + 4 <= |mem| && mem[a..a + 4] == WordChars(w)
    ensures WordIn(mem, a) == w
  {
    var s := mem[a..a + 4];
    assert s[0] == mem[a] && s[1] == mem[a + 1] && s[2] == mem[a + 2] && s[3] == mem[a + 3];
    var high, mid := w / 0x1_0000, w / 0x100;
    assert w / 0x100_0000 == high / 0x100 && high == mid / 0x100;
  }

  ghost predicate HoldsChars(mem: seq<char>, a: nat, bytes: seq<char>) {
    Holds(mem, Region(a, bytes))
  }

  lemma HoldsParts(mem: seq<char>, a: nat, x: seq<char>, y: seq<char>)
    requires HoldsChars(mem, a, x + y)
    ensures HoldsChars(mem, a, x) && HoldsChars(mem, a + |x|, y)
  {
    var s := mem[a..a + |x + y|];
    assert mem[a..a + |x|] == s[..|x|] == x;
    assert mem[a + |x|..a + |x| + |y|] == s[|x|..] == y;
  }

  lemma ReplacementReadsBack(mem: seq<char>, a: nat, r: Replacement, disc: u32)
    requires r.entrynum < WORD && HoldsChars(mem, a, ReplacementChars(disc, r.hash, r.entrynum))
    requires HoldsChars(mem, disc, r.disc + ['\0'])
    ensures Denotes(mem, a, r)
  {
    HoldsParts(mem, a, WordChars(disc) + WordChars(r.hash), WordChars(r.entrynum));
    HoldsParts(mem, a, WordChars(disc), WordChars(r.hash));
    WordReadsBack(mem, a, disc);
    WordReadsBack(mem, a + 4, r.hash);
    WordReadsBack(mem, a + 8, r.entrynum);
    InternedStringReadsBack(mem, disc, r.disc);
  }

  lemma SdFileReadsBack(mem: seq<char>, a: nat, path: CString, at: u32)
    requires HoldsChars(mem, a, SdFileChars(at)) && HoldsChars(mem, at, path + ['\0'])
    ensures CStringAt(mem, WordIn(mem, a)) == path && WordIn(mem, a + 4) == 0
  {
    HoldsParts(mem, a, WordChars(at), WordChars(0));
    WordReadsBack(mem, a, at);
    WordReadsBack(mem, a + 4, 0);
    InternedStringReadsBack(mem, at, path);
  }

  // ---- Tables ----

  /** Each replacement's key has an address. */
  predicate Addressed(table: seq<Replacement>, at: map<CString, u32>) {
    forall i :: 0 <= i < |table| ==> table[i].disc in at && table[i].entrynum < WORD
  }

  function TableChars(table: seq<Replacement>, at: map<CString, u32>): (r: seq<char>)
    requires Addressed(table, at)
    ensures |r| == REPLACEMENT_SIZE * |table|
  {
    if table == [] then []
    else
      var n := |table| - 1;
      var r := table[n];
      TableChars(table[..n], at) + ReplacementChars(at[r.disc], r.hash, r.entrynum)
  }

  function PathsChars(pathAt: seq<u32>): (r: seq<char>)
    ensures |r| == SD_FILE_SIZE * |pathAt|
  {
    if pathAt == [] then [] else PathsChars(pathAt[..|pathAt| - 1]) + SdFileChars(pathAt[|pathAt| - 1])
  }

  /** The strings the table points to are where it says. */
  ghost predicate KeysHeld(mem: seq<char>, table: seq<Replacement>, at: map<CString, u32>) {
    forall i :: 0 <= i < |table| ==> table[i].disc in at && HoldsChars(mem, at[table[i].disc], table[i].disc + ['\0'])
  }

  ghost predicate PathsHeld(mem: seq<char>, paths: seq<CString>, pathAt: seq<u32>) {
    |paths| == |pathAt| && forall i :: 0 <= i < |paths| ==> HoldsChars(mem, pathAt[i], paths[i] + ['\0'])
  }

  lemma {:induction false} RecordHeld(mem: seq<char>, a: nat, table: seq<Replacement>, at: map<CString, u32>, i: nat)
    requires Addressed(table, at) && HoldsChars(mem, a, TableChars(table, at)) && i < |table|
    ensures HoldsChars(mem, a + REPLACEMENT_SIZE * i,
                       ReplacementChars(at[table[i].disc], table[i].hash, table[i].entrynum))
    decreases |table|
  {
    var n := |table| - 1;
    var r := table[n];
    HoldsParts(mem, a, TableChars(table[..n], at), ReplacementChars(at[r.disc], r.hash, r.entrynum));
    if i < n {
      RecordHeld(mem, a, table[..n], at, i);
    }
  }

  lemma TableReadsBack(mem: seq<char>, a: nat, table: seq<Replacement>, at: map<CString, u32>)
    requires Addressed(table, at) && HoldsChars(mem, a, TableChars(table, at)) && KeysHeld(mem, table, at)
    ensures DenotesTable(mem, a, table)
  {
    forall i | 0 <= i < |table| ensures Denotes(mem, a + REPLACEMENT_SIZE * i, table[i]) {
      RecordHeld(mem, a, table, at, i);
      ReplacementReadsBack(mem, a + REPLACEMENT_SIZE * i, table[i], at[table[i].disc]);
    }
  }

  lemma {:induction false} PathRecordHeld(mem: seq<char>, a: nat, pathAt: seq<u32>, i: nat)
    requires HoldsChars(mem, a, PathsChars(pathAt)) && i < |pathAt|
    ensures HoldsChars(mem, a + SD_FILE_SIZE * i, SdFileChars(pathAt[i]))
    decreases |pathAt|
  {
    var n := |pathAt| - 1;
    HoldsParts(mem, a, PathsChars(pathAt[..n]), SdFileChars(pathAt[n]));
    if i < n {
      PathRecordHeld(mem, a, pathAt[..n], i);
    }
  }

  lemma PathsReadBack(mem: seq<char>, a: nat, paths: seq<CString>, pathAt: seq<u32>)
    requires PathsHeld(mem, paths, pathAt) && HoldsChars(mem, a, PathsChars(pathAt))
    ensures DenotesPaths(mem, a, paths)
  {
    forall i | 0 <= i < |paths|
      ensures CStringAt(mem, WordIn(mem, a + SD_FILE_SIZE * i)) == paths[i]
              && WordIn(mem, a + SD_FILE_SIZE * i + 4) == 0
    {
      PathRecordHeld(mem, a, pathAt, i);
      SdFileReadsBack(mem, a + SD_FILE_SIZE * i, paths[i], pathAt[i]);
    }
  }

  // ---- The loader with its arena ----

  class PackedLoader {
    const loader: Loader
    const mem1: Mem1
    /** Where the path of each SD entry was interned, and the key of each table's current entries. */
    var pathAt: seq<u32>
    var fullAt: map<CString, u32>
    var nameAt: map<CString, u32>

    ghost predicate Valid()
      reads this, loader, loader.sdFiles, loader.replacements, loader.filenameReplacements
      reads loader.sdFiles.data, loader.replacements.data, loader.filenameReplacements.data
      reads mem1, mem1.mem
    {
      && loader.Valid() && mem1.Valid()
      && Interned(mem1.regions, loader.State(), pathAt, fullAt, nameAt)
    }

    constructor (mem: array<char>, initial: nat)
      requires initial <= mem.Length < WORD
      ensures Valid() && loader.State() == EMPTY_TABLES && mem1.mem == mem && mem1.initial == initial
              && mem1.mem1 == initial
      ensures fresh(loader) && fresh(mem1)
    {
      loader := new Loader();
      mem1 := new Mem1(mem, initial);
      pathAt, fullAt, nameAt := [], map[], map[];
    }

    /** A new SD path is interned; `t` are the tables it is about to be listed in. */
    method NotePath(externalPath: CString, ghost t: Tables)
      requires mem1.Valid() && |externalPath| + 1 <= mem1.mem1 && Interned(mem1.regions, t, pathAt, fullAt, nameAt)
      modifies this`pathAt, mem1, mem1.mem
      ensures mem1.Valid() && mem1.mem1 == old(mem1.mem1) - (|externalPath| + 1)
      ensures Interned(mem1.regions, t.(sdFiles := t.sdFiles + [externalPath]), pathAt, fullAt, nameAt)
    {
      ghost var regions := mem1.regions;
      var a := mem1.BumpAllocString(externalPath);
      MoreRegions(regions, [Region(a, externalPath + ['\0'])], t, pathAt, fullAt, nameAt);
      PathEntered(mem1.regions, t.sdFiles, pathAt, externalPath, a);
      pathAt := pathAt + [a];
    }

    /** The key of an accepted registration is interned. */
    method NoteKey(discPath: CString, ghost entrynum: nat, ghost t: Tables)
      requires mem1.Valid() && |discPath| + 1 <= mem1.mem1 && Interned(mem1.regions, t, pathAt, fullAt, nameAt)
      modifies this`fullAt, this`nameAt, mem1, mem1.mem
      ensures mem1.Valid() && old(mem1.mem1) - (|discPath| + 1) <= mem1.mem1 <= old(mem1.mem1)
      ensures Interned(mem1.regions, Entered(t, discPath, entrynum), pathAt, fullAt, nameAt)
    {
      ghost var regions := mem1.regions;
      var key := KeyOf(discPath);
      var b := mem1.BumpAllocString(key);
      MoreRegions(regions, [Region(b, key + ['\0'])], t, pathAt, fullAt, nameAt);
      ghost var entry := Replacement(key, Hash(key), entrynum);
      if IsFullPath(discPath) {
        KeyEntered(mem1.regions, t.full, fullAt, entry, b);
        fullAt := fullAt[key := b];
      } else {
        KeyEntered(mem1.regions, t.byName, nameAt, entry, b);
        nameAt := nameAt[key := b];
      }
    }

    /**
     * `_rrc_riivo_handle_file_patch`: a new path and every accepted key are interned, then the replacement is entered.
     */
    method HandleFilePatch(onCard: set<CString>, discPath: CString, externalPath: CString, checkExists: bool)
      requires Valid() && |externalPath| + |discPath| + 2 <= mem1.mem1
      modifies this, mem1, mem1.mem, loader, loader.sdFiles, loader.replacements, loader.filenameReplacements
      modifies loader.sdFiles.data, loader.replacements.data, loader.filenameReplacements.data
      ensures Valid()
      ensures loader.State() == Registered(old(loader.State()), onCard,
                                           Registration(discPath, externalPath, checkExists))
      ensures old(mem1.mem1) - (|externalPath| + |discPath| + 2) <= mem1.mem1 <= old(mem1.mem1)
      ensures ArraysKept(loader)
    {
      NoteStrings(onCard, discPath, externalPath, checkExists, loader.State());
      loader.HandleFilePatch(onCard, discPath, externalPath, checkExists);
    }

    /** The strings of one registration that `t` does not list yet. */
    method NoteStrings(onCard: set<CString>, discPath: CString, externalPath: CString, checkExists: bool,
                       ghost t: Tables)
      requires Valid() && loader.State() == t && |externalPath| + |discPath| + 2 <= mem1.mem1
      modifies this`pathAt, this`fullAt, this`nameAt, mem1, mem1.mem
      ensures mem1.Valid()
      ensures old(mem1.mem1) - (|externalPath| + |discPath| + 2) <= mem1.mem1 <= old(mem1.mem1)
      ensures Interned(mem1.regions, Registered(t, onCard, Registration(discPath, externalPath, checkExists)), pathAt,
                       fullAt, nameAt)
    {
      if discPath == "main.dol" || IsAppleDouble(discPath) {
        return;
      }
      var entrynum := loader.FindSdFile(externalPath);
      if entrynum != -1 {
        NoteKey(discPath, entrynum, t);
      } else if !checkExists || externalPath in onCard {
        NotePath(externalPath, t);
        NoteKey(discPath, |t.sdFiles|, t.(sdFiles := t.sdFiles + [externalPath]));
      }
    }

    /** One registration behind those that gave `t`, its paths lower-cased first. */
    method RegisterNext(onCard: set<CString>, reg: Registration, ghost t: Tables)
      requires Valid() && loader.State() == t && |reg.disc| + |reg.external| + 2 <= mem1.mem1
      modifies this, mem1, mem1.mem, loader, loader.sdFiles, loader.replacements, loader.filenameReplacements
      modifies loader.sdFiles.data, loader.replacements.data, loader.filenameReplacements.data
      ensures Valid() && loader.State() == Registered(t, onCard, Normalized(reg))
      ensures old(mem1.mem1) - (|reg.disc| + |reg.external| + 2) <= mem1.mem1
      ensures ArraysKept(loader)
    {
      HandleFilePatch(onCard, Lower(reg.disc), Lower(reg.external), reg.checkExists);
    }

    /** All registrations of a parse, with room for their strings. */
    method RegisterAll(onCard: set<CString>, regs: seq<Registration>)
      requires Valid() && loader.State() == EMPTY_TABLES && Room(regs) <= mem1.mem1
      modifies this, mem1, mem1.mem, loader, loader.sdFiles, loader.replacements, loader.filenameReplacements
      modifies loader.sdFiles.data, loader.replacements.data, loader.filenameReplacements.data
      ensures Valid() && loader.State() == RegisteredAll(onCard, regs)
      ensures old(mem1.mem1) - Room(regs) <= mem1.mem1
      ensures ArraysKept(loader)
      decreases |regs|
    {
      if regs != [] {
        var n := |regs| - 1;
        RegisterAll(onCard, regs[..n]);
        RegisterNext(onCard, regs[n], RegisteredAll(onCard, regs[..n]));
      }
    }

    /** The end of the parse: `full` and `byName` are the tables as `qsort` left them. */
    method Pack(full: seq<Replacement>, byName: seq<Replacement>) returns (sd: nat, fullTable: nat, nameTable: nat)
      requires Valid()
      requires multiset(full) == multiset(loader.State().full) && multiset(byName) == multiset(loader.State().byName)
      requires forall r :: r in full || r in byName ==> r.entrynum < WORD
      requires SD_FILE_SIZE * |pathAt| + REPLACEMENT_SIZE * |full| + REPLACEMENT_SIZE * |byName| + 9 <= mem1.mem1
      modifies mem1, mem1.mem
      ensures DenotesDisc(mem1.mem[..], sd, fullTable, nameTable, RiivoDisc(loader.State().sdFiles, byName, full))
      ensures sd % 4 == 0 && fullTable % 4 == 0 && nameTable % 4 == 0
    {
      ghost var t, regions := loader.State(), mem1.regions;
      SameMembers(regions, t.full, full, fullAt);
      SameMembers(regions, t.byName, byName, nameAt);
      sd, fullTable, nameTable := mem1.PackDisc(PathsChars(pathAt), TableChars(full, fullAt),
                                                TableChars(byName, nameAt));
      ghost var mem := mem1.mem[..];
      PackedReadsBack(mem, mem1.regions, regions, t.sdFiles, pathAt, full, fullAt, byName, nameAt, sd, fullTable,
                      nameTable);
    }
  }

  // ---- Interned strings and the tables that point to them ----

  /** The path of each entry is a region of its own, at the address noted for it. */
  ghost predicate PathsInterned(regions: seq<Region>, paths: seq<CString>, pathAt: seq<u32>) {
    |paths| == |pathAt| && forall i :: 0 <= i < |paths| ==> Region(pathAt[i], paths[i] + ['\0']) in regions
  }

  ghost predicate KeysInterned(regions: seq<Region>, table: seq<Replacement>, at: map<CString, u32>) {
    forall r :: r in table ==> r.disc in at && Region(at[r.disc], r.disc + ['\0']) in regions
  }

  ghost predicate Interned(regions: seq<Region>, t: Tables, pathAt: seq<u32>, fullAt: map<CString, u32>,
                           nameAt: map<CString, u32>) {
    PathsInterned(regions, t.sdFiles, pathAt) && KeysInterned(regions, t.full, fullAt)
    && KeysInterned(regions, t.byName, nameAt)
  }

  lemma MoreRegions(regions: seq<Region>, more: seq<Region>, t: Tables, pathAt: seq<u32>, fullAt: map<CString, u32>,
                    nameAt: map<CString, u32>)
    requires Interned(regions, t, pathAt, fullAt, nameAt)
    ensures Interned(regions + more, t, pathAt, fullAt, nameAt)
  {
  }

  lemma RemovedIsPart(table: seq<Replacement>, remove: Replacement, r: Replacement)
    requires r in Removed(table, remove)
    ensures r in table
  {
    var at := FirstKey(table, remove.hash, remove.disc);
    if at.Some? {
      SwapRemovedMultiset(table, at.value);
      assert r in multiset(SwapRemoved(table, at.value));
    }
  }

  /** Entering a key whose text was interned at `a` keeps every pointer good, the overridden ones included. */
  lemma KeyEntered(regions: seq<Region>, table: seq<Replacement>, at: map<CString, u32>, entry: Replacement, a: u32)
    requires KeysInterned(regions, table, at) && Region(a, entry.disc + ['\0']) in regions
    ensures KeysInterned(regions, Removed(table, entry) + [entry], at[entry.disc := a])
  {
    forall r | r in Removed(table, entry) + [entry]
      ensures r.disc in at[entry.disc := a] && Region(at[entry.disc := a][r.disc], r.disc + ['\0']) in regions
    {
      if r in Removed(table, entry) {
        RemovedIsPart(table, entry, r);
      }
    }
  }

  lemma PathEntered(regions: seq<Region>, paths: seq<CString>, pathAt: seq<u32>, path: CString, a: u32)
    requires PathsInterned(regions, paths, pathAt) && Region(a, path + ['\0']) in regions
    ensures PathsInterned(regions, paths + [path], pathAt + [a])
  {
  }

  /** Sorting keeps every pointer good. */
  lemma SameMembers(regions: seq<Region>, table: seq<Replacement>, sorted: seq<Replacement>, at: map<CString, u32>)
    requires KeysInterned(regions, table, at) && multiset(sorted) == multiset(table)
    requires forall r :: r in sorted ==> r.entrynum < WORD
    ensures KeysInterned(regions, sorted, at) && Addressed(sorted, at)
  {
    forall r | r in sorted ensures r in table {
      assert r in multiset(sorted);
    }
  }

  ghost predicate AllHeld(mem: seq<char>, regions: seq<Region>) {
    forall i :: 0 <= i < |regions| ==> Holds(mem, regions[i])
  }

  lemma KeysAreHeld(mem: seq<char>, regions: seq<Region>, table: seq<Replacement>, at: map<CString, u32>)
    requires AllHeld(mem, regions) && KeysInterned(regions, table, at)
    ensures KeysHeld(mem, table, at)
  {
    forall i | 0 <= i < |table|
      ensures table[i].disc in at && HoldsChars(mem, at[table[i].disc], table[i].disc + ['\0'])
    {
      assert Region(at[table[i].disc], table[i].disc + ['\0']) in regions;
    }
  }

  lemma PathsAreHeld(mem: seq<char>, regions: seq<Region>, paths: seq<CString>, pathAt: seq<u32>)
    requires AllHeld(mem, regions) && PathsInterned(regions, paths, pathAt)
    ensures PathsHeld(mem, paths, pathAt)
  {
    forall i | 0 <= i < |paths| ensures HoldsChars(mem, pathAt[i], paths[i] + ['\0']) {
      assert Region(pathAt[i], paths[i] + ['\0']) in regions;
    }
  }

  /** Memory with all strings and the three tables in place denotes the index. */
  lemma PackedReadsBack(mem: seq<char>, all: seq<Region>, strings: seq<Region>, paths: seq<CString>, pathAt: seq<u32>,
                        full: seq<Replacement>, fullAt: map<CString, u32>, byName: seq<Replacement>,
                        nameAt: map<CString, u32>,
                        sd: nat, fullTable: nat, nameTable: nat)
    requires AllHeld(mem, all) && Addressed(full, fullAt) && Addressed(byName, nameAt)
    requires all == strings + [Region(sd, PathsChars(pathAt)), Region(fullTable, TableChars(full, fullAt)),
                               Region(nameTable, TableChars(byName, nameAt))]
    requires PathsInterned(strings, paths, pathAt) && KeysInterned(strings, full, fullAt)
             && KeysInterned(strings, byName, nameAt)
    ensures DenotesDisc(mem, sd, fullTable, nameTable, RiivoDisc(paths, byName, full))
  {
    var n := |strings|;
    assert all[n] == Region(sd, PathsChars(pathAt)) && all[n + 1] == Region(fullTable, TableChars(full, fullAt));
    assert all[n + 2] == Region(nameTable, TableChars(byName, nameAt));
    assert forall i :: 0 <= i < n ==> strings[i] == all[i];
    assert AllHeld(mem, strings);
    PathsAreHeld(mem, strings, paths, pathAt);
    KeysAreHeld(mem, strings, full, fullAt);
    KeysAreHeld(mem, strings, byName, nameAt);
    PathsReadBack(mem, sd, paths, pathAt);
    TableReadsBack(mem, fullTable, full, fullAt);
    TableReadsBack(mem, nameTable, byName, nameAt);
  }

  /** Bytes the strings of these registrations may take. */
  function Room(regs: seq<Registration>): nat {
    if regs == [] then 0 else Room(regs[..|regs| - 1]) + |regs[|regs| - 1].disc| + |regs[|regs| - 1].external| + 2
  }

  // ---- What the game finds through the pointers ----

  predicate SameUpToCase(a: string, b: string) {
    |a| == |b| && forall i :: 0 <= i < |a| ==> ToLower(a[i]) == ToLower(b[i])
  }

  /** The record at an address answers a query: its hash is equal, and its key agrees up to case. */
  predicate RecordAnswers(mem: seq<char>, a: nat, hash: u32, name: CString) {
    WordIn(mem, a + 4) == hash && SameUpToCase(CStringAt(mem, WordIn(mem, a)), name)
  }

  /** The entry number in the first of `count` records that answers. */
  function FirstAnswerIn(mem: seq<char>, a: nat, count: nat, hash: u32, name: CString): Option<nat>
    decreases count
  {
    if count == 0 then None
    else if RecordAnswers(mem, a, hash, name) then Some(WordIn(mem, a + 8))
    else FirstAnswerIn(mem, a + REPLACEMENT_SIZE, count - 1, hash, name)
  }

  /** The entry number a path resolves to, read from the tables in memory alone. */
  function ResolvedIn(mem: seq<char>, fullTable: nat, fullCount: nat, nameTable: nat, nameCount: nat, path: CString)
    : Option<nat>
  {
    var filename := Stripped(path);
    var segment := LastSegment(filename);
    var byName := FirstAnswerIn(mem, nameTable, nameCount, Hash(Lower(segment)), segment);
    if byName.Some? then byName else FirstAnswerIn(mem, fullTable, fullCount, Hash(Lower(filename)), filename)
  }

  lemma SameUpToCaseIsLower(a: CString, b: CString)
    ensures SameUpToCase(a, b) <==> Lower(a) == Lower(b)
  {
    if Lower(a) == Lower(b) {
      assert |Lower(a)| == |Lower(b)|;
      assert forall i :: 0 <= i < |a| ==> Lower(a)[i] == ToLower(a[i]) && Lower(b)[i] == ToLower(b[i]);
    }
  }

  lemma RecordAnswersIff(mem: seq<char>, a: nat, r: Replacement, hash: u32, name: CString)
    requires Denotes(mem, a, r)
    ensures RecordAnswers(mem, a, hash, name) <==> DvdLookup.Answers(r, hash, name)
  {
    SameUpToCaseIsLower(r.disc, name);
  }

  lemma DenotesRest(mem: seq<char>, a: nat, table: seq<Replacement>)
    requires table != [] && DenotesTable(mem, a, table)
    ensures Denotes(mem, a, table[0]) && DenotesTable(mem, a + REPLACEMENT_SIZE, table[1..])
  {
    assert Denotes(mem, a + REPLACEMENT_SIZE * 0, table[0]);
    forall i | 0 <= i < |table[1..]|
      ensures Denotes(mem, a + REPLACEMENT_SIZE + REPLACEMENT_SIZE * i, table[1..][i])
    {
      assert Denotes(mem, a + REPLACEMENT_SIZE * (i + 1), table[i + 1]);
    }
  }

  /** Searching the records in memory is searching the table they denote. */
  lemma {:induction false} MemorySearchIsTableSearch(mem: seq<char>, a: nat, table: seq<Replacement>, hash: u32,
                                                     name: CString)
    requires DenotesTable(mem, a, table)
    ensures FirstAnswerIn(mem, a, |table|, hash, name) == FirstAnswer(table, hash, name)
    decreases table
  {
    if table != [] {
      DenotesRest(mem, a, table);
      RecordAnswersIff(mem, a, table[0], hash, name);
      MemorySearchIsTableSearch(mem, a + REPLACEMENT_SIZE, table[1..], hash, name);
    }
  }

  /** So is resolving a path. */
  lemma MemoryResolves(mem: seq<char>, sd: nat, fullTable: nat, nameTable: nat, disc: RiivoDisc, path: CString)
    requires DenotesDisc(mem, sd, fullTable, nameTable, disc)
    ensures ResolvedIn(mem, fullTable, |disc.full|, nameTable, |disc.byName|, path) == Resolved(disc, path)
  {
    var filename := Stripped(path);
    var segment := LastSegment(filename);
    MemorySearchIsTableSearch(mem, nameTable, disc.byName, Hash(Lower(segment)), segment);
    MemorySearchIsTableSearch(mem, fullTable, disc.full, Hash(Lower(filename)), filename);
  }

  /**
   * The whole way: for every list of registrations and every query, searching the records in memory and following
   * the pointers leads to the SD path that the plain last-registration-wins maps give.
   */
  lemma PackedLookupAgrees(mem: seq<char>, sd: nat, fullTable: nat, nameTable: nat, onCard: set<CString>,
                           regs: seq<Registration>, full: seq<Replacement>, byName: seq<Replacement>, query: CString)
    requires multiset(full) == multiset(RegisteredAll(onCard, regs).full)
    requires multiset(byName) == multiset(RegisteredAll(onCard, regs).byName)
    requires DenotesDisc(mem, sd, fullTable, nameTable, RiivoDisc(RegisteredAll(onCard, regs).sdFiles, byName, full))
    ensures LeadsTo(mem, sd, ResolvedIn(mem, fullTable, |full|, nameTable, |byName|, query),
                    PlainResolved(PlainRegisteredAll(onCard, regs), query))
  {
    var paths := RegisteredAll(onCard, regs).sdFiles;
    var found := ResolvedIn(mem, fullTable, |full|, nameTable, |byName|, query);
    MemoryResolves(mem, sd, fullTable, nameTable, RiivoDisc(paths, byName, full), query);
    LookupAgreesWithPlainMaps(onCard, regs, full, byName, query);
    PathThroughPointer(mem, sd, paths, found, PlainResolved(PlainRegisteredAll(onCard, regs), query));
  }

  /** The SD path behind the entry a lookup found. */
  predicate LeadsTo(mem: seq<char>, sd: nat, found: Option<nat>, expected: Option<CString>) {
    if found.None? then expected.None?
    else expected.Some? && CStringAt(mem, WordIn(mem, sd + SD_FILE_SIZE * found.value)) == expected.value
  }

  lemma PathThroughPointer(mem: seq<char>, sd: nat, paths: seq<CString>, found: Option<nat>, expected: Option<CString>)
    requires DenotesPaths(mem, sd, paths)
    requires if found.Some? then found.value < |paths| && expected == Some(paths[found.value]) else expected.None?
    ensures LeadsTo(mem, sd, found, expected)
  {
  }
}
