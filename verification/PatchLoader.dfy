// source/loader/riivo_patch_loader.c: registration of Riivolution file replacements.

/** Replacement tables, the registration of one file patch, and the plain maps the tables stand for. */
module PatchLoader {
  import opened CStrings
  import opened Vecs

  /** One `rrc_riivo_file_replacement`: a disc key, its hash, and the index of the SD file that replaces it. */
  datatype Replacement = Replacement(disc: CString, hash: u32, entrynum: nat)

  /** The tables a parse builds up: SD paths, full-path replacements, file-name replacements, main.dol override. */
  datatype Tables = Tables(sdFiles: seq<CString>, full: seq<Replacement>, byName: seq<Replacement>,
                           mainDol: Option<CString>)

  const EMPTY_TABLES := Tables([], [], [], None)

  /** One `<file>`, or one file met inside a `<folder>` (those are not checked for existence). */
  datatype Registration = Registration(disc: CString, external: CString, checkExists: bool)

  predicate SameKey(a: Replacement, hash: u32, disc: CString) {
    a.hash == hash && a.disc == disc
  }

  function FirstPath(paths: seq<CString>, path: CString): (r: Option<nat>)
    ensures r.None? ==> path !in paths
    ensures r.Some? ==> r.value < |paths| && paths[r.value] == path && path !in paths[..r.value]
  {
    if paths == [] then None
    else if paths[0] == path then Some(0)
    else
      var rest := FirstPath(paths[1..], path);
      if rest.None? then None else
      assert paths[..rest.value + 1] == [paths[0]] + paths[1..][..rest.value];
      Some(rest.value + 1)
  }

  function FirstKey(table: seq<Replacement>, hash: u32, disc: CString): (r: Option<nat>)
    ensures r.None? ==> forall i :: 0 <= i < |table| ==> !SameKey(table[i], hash, disc)
    ensures r.Some? ==> r.value < |table| && SameKey(table[r.value], hash, disc)
    ensures r.Some? ==> forall i :: 0 <= i < r.value ==> !SameKey(table[i], hash, disc)
  {
    if table == [] then None
    else if SameKey(table[0], hash, disc) then Some(0)
    else
      var rest := FirstKey(table[1..], hash, disc);
      if rest.None? then None else Some(rest.value + 1)
  }

  /** Drops the entry with the same key, if there is one. */
  function Removed(table: seq<Replacement>, remove: Replacement): seq<Replacement> {
    var at := FirstKey(table, remove.hash, remove.disc);
    if at.None? then table else SwapRemoved(table, at.value)
  }

  predicate IsAppleDouble(disc: CString) {
    |disc| >= 2 && disc[0] == '.' && disc[1] == '_'
  }

  predicate IsFullPath(disc: CString) {
    disc != [] && disc[0] == '/'
  }

  function KeyOf(disc: CString): CString {
    if IsFullPath(disc) then disc[1..] else disc
  }

  /** What one registration does to the tables; `onCard` is the set of files present on the SD card. */
  function Registered(t: Tables, onCard: set<CString>, reg: Registration): Tables {
    if reg.disc == "main.dol" then t.(mainDol := Some(reg.external))
    else if IsAppleDouble(reg.disc) then t
    else
      var known := FirstPath(t.sdFiles, reg.external);
      if known.None? && reg.checkExists && reg.external !in onCard then t
      else
        if known.Some? then Entered(t, reg.disc, known.value)
        else Entered(t.(sdFiles := t.sdFiles + [reg.external]), reg.disc, |t.sdFiles|)
  }

  /** Enters the replacement in the table its leading slash asks for, in place of one with the same key. */
  function Entered(t: Tables, disc: CString, entrynum: nat): Tables {
    var key := KeyOf(disc);
    var newReplacement := Replacement(key, Hash(key), entrynum);
    if IsFullPath(disc) then t.(full := Removed(t.full, newReplacement) + [newReplacement])
    else t.(byName := Removed(t.byName, newReplacement) + [newReplacement])
  }

  /** Every registration reaches `_rrc_riivo_handle_file_patch` with both paths lower-cased. */
  function Normalized(reg: Registration): Registration {
    reg.(disc := Lower(reg.disc), external := Lower(reg.external))
  }

  function RegisteredAll(onCard: set<CString>, regs: seq<Registration>): Tables {
    if regs == [] then EMPTY_TABLES
    else Registered(RegisteredAll(onCard, regs[..|regs| - 1]), onCard, Normalized(regs[|regs| - 1]))
  }

  // ---- The loader as the source runs it: three vectors updated in place. ----

  class Loader {
    const sdFiles: Vec<CString>
    const replacements: Vec<Replacement>
    const filenameReplacements: Vec<Replacement>
    var mainDol: Option<CString>

    ghost predicate Valid()
      reads this, sdFiles, replacements, filenameReplacements
    {
      && sdFiles.Valid() && replacements.Valid() && filenameReplacements.Valid()
      && replacements != filenameReplacements
      && replacements.data != filenameReplacements.data
    }

    ghost function State(): Tables
      requires Valid()
      reads this, sdFiles, replacements, filenameReplacements
      reads sdFiles.data, replacements.data, filenameReplacements.data
    {
      Tables(sdFiles.Contents(), replacements.Contents(), filenameReplacements.Contents(), mainDol)
    }

    constructor ()
      ensures Valid() && State() == EMPTY_TABLES
      ensures fresh(sdFiles) && fresh(replacements) && fresh(filenameReplacements)
      ensures fresh(sdFiles.data) && fresh(replacements.data) && fresh(filenameReplacements.data)
    {
      sdFiles := new Vec<CString>(4);
      replacements := new Vec<Replacement>(4);
      filenameReplacements := new Vec<Replacement>(4);
      mainDol := None;
    }

    /** The entry number of an SD path that is already listed. */
    method FindSdFile(externalPath: CString) returns (entrynum: int)
      requires Valid()
      ensures entrynum == -1 <==> FirstPath(State().sdFiles, externalPath).None?
      ensures entrynum != -1 ==> FirstPath(State().sdFiles, externalPath) == Some(entrynum)
    {
      entrynum := -1;
      var i := 0;
      ghost var paths := sdFiles.Contents();
      while i < sdFiles.len
        invariant 0 <= i <= sdFiles.len
        invariant externalPath !in paths[..i]
      {
        if sdFiles.data[i] == externalPath {
          return i;
        }
        i := i + 1;
      }
    }

    /** The entry number for an SD path, listing it first if it is new; -1 if it has to exist and does not. */
    method InternSdFile(onCard: set<CString>, externalPath: CString, checkExists: bool) returns (entrynum: int)
      requires Valid()
      modifies sdFiles, sdFiles.data
      ensures Valid()
      ensures fresh(sdFiles.data) || sdFiles.data == old(sdFiles.data)
      ensures var paths := old(sdFiles.Contents());
              var known := FirstPath(paths, externalPath);
              if known.Some? then entrynum == known.value && sdFiles.Contents() == paths
              else if checkExists && externalPath !in onCard then entrynum == -1 && sdFiles.Contents() == paths
              else entrynum == |paths| && sdFiles.Contents() == paths + [externalPath]
    {
      entrynum := FindSdFile(externalPath);
      if entrynum == -1 {
        if checkExists && externalPath !in onCard {
          return;
        }
        entrynum := sdFiles.len;
        sdFiles.Push(externalPath);
      }
    }

    /** Registers one replacement; a later one for the same key takes the place of the earlier one. */
    method HandleFilePatch(onCard: set<CString>, discPath: CString, externalPath: CString, checkExists: bool)
      requires Valid()
      modifies this, sdFiles, replacements, filenameReplacements
      modifies sdFiles.data, replacements.data, filenameReplacements.data
      ensures Valid()
      ensures State() == Registered(old(State()), onCard, Registration(discPath, externalPath, checkExists))
      ensures ArraysKept(this)
    {
      if discPath == "main.dol" {
        mainDol := Some(externalPath);
        return;
      }
      if |discPath| >= 2 && discPath[0] == '.' && discPath[1] == '_' {
        return;
      }
      var entrynum := InternSdFile(onCard, externalPath, checkExists);
      if entrynum == -1 {
        return;
      }
      EnterReplacement(discPath, entrynum);
    }

    method EnterReplacement(discPath: CString, entrynum: nat)
      requires Valid()
      modifies replacements, filenameReplacements
      modifies replacements.data, filenameReplacements.data
      ensures Valid()
      ensures State() == Entered(old(State()), discPath, entrynum)
      ensures fresh(replacements.data) || replacements.data == old(replacements.data)
      ensures fresh(filenameReplacements.data) || filenameReplacements.data == old(filenameReplacements.data)
    {
      var isFilenameReplacement := |discPath| == 0 || discPath[0] != '/';
      var key := if isFilenameReplacement then discPath else discPath[1..];
      var hash := HashString(key);
      if isFilenameReplacement {
        Override(filenameReplacements, Replacement(key, hash, entrynum));
      } else {
        Override(replacements, Replacement(key, hash, entrynum));
      }
    }
  }

  /** Each table still has its array, or a new one. */
  twostate predicate ArraysKept(loader: Loader)
    reads loader.sdFiles, loader.replacements, loader.filenameReplacements
  {
    && (fresh(loader.sdFiles.data) || loader.sdFiles.data == old(loader.sdFiles.data))
    && (fresh(loader.replacements.data) || loader.replacements.data == old(loader.replacements.data))
    && (fresh(loader.filenameReplacements.data)
        || loader.filenameReplacements.data == old(loader.filenameReplacements.data))
  }

  /** Later replacements override earlier ones: remove, then push. */
  method Override(table: Vec<Replacement>, newReplacement: Replacement)
    requires table.Valid()
    modifies table, table.data
    ensures table.Valid() && (fresh(table.data) || table.data == old(table.data))
    ensures table.Contents() == Removed(old(table.Contents()), newReplacement) + [newReplacement]
  {
    RemoveReplacement(table, newReplacement);
    table.Push(newReplacement);
  }

  /** `_rrc_riivo_remove_replacement`: removes the first entry with the same hash and the same text. */
  method RemoveReplacement(table: Vec<Replacement>, remove: Replacement)
    requires table.Valid()
    modifies table`len, table.data
    ensures table.Valid() && table.data == old(table.data) && table.cap == old(table.cap)
    ensures table.Contents() == Removed(old(table.Contents()), remove)
  {
    var i := 0;
    while i < table.len
      invariant 0 <= i <= table.len
      invariant table.Valid() && table.data == old(table.data) && table.cap == old(table.cap)
      invariant table.Contents() == old(table.Contents())
      invariant forall j :: 0 <= j < i ==> !SameKey(table.data[j], remove.hash, remove.disc)
    {
      var repl := table.At(i);
      if repl.hash == remove.hash && repl.disc == remove.disc {
        assert FirstKey(table.Contents(), remove.hash, remove.disc) == Some(i);
        table.SwapRemove(i);
        return;
      }
      i := i + 1;
    }
  }
}
