# Retro Rewind launcher: verified model

A Dafny model of the launcher and of the code it leaves running beside the game, with proofs of what the hard parts
promise. `dafny verify dfyconfig.toml` checks all of it.

* **Replacement index** (`CStrings`, `Vecs`, `PatchLoader`, `FolderPatch`, `RiivoIndex`, `DvdLookup`, `EntryTag`,
  `Alignment`, `Arena`, `PackedIndex`; laws in `LookupLaws`, `PackedLaws`, `FolderLaws`). The launcher registers
  file replacements, singly and folder by folder, sorts them by a 32-bit hash and packs them below the top of MEM1.
  The game looks paths up by binary search. The central theorem is `RiivoIndex.LookupAgreesWithPlainMaps`: the fast
  index answers as two plain maps do in which the last registration of a lower-cased path wins. `PackedIndex`
  carries it through memory: interned strings, records with pointers to them, aligned tables, and what the game
  reads back from the bytes.
* **Open-file table** (`OpenFiles`). Sixteen refcounted slots shared by Open, FastOpen, ReadPrio and Close, as a
  state machine over arbitrary legal call sequences.
* **Launch** (`Bits`, `Memory`, `Ppc`, `Dol`, `Hooks`, `PulsarLoader`, `DvdHooks`, `LaunchSequence`; laws in
  `LaunchLaws`, `HookLaws`). Functions are hooked in the staged copy of the game, Loader.pul is copied into it, and
  `patch_dol` then clears BSS, copies sections and applies memory patches over one 32-bit address space. Hooking
  before the copy equals hooking after it, and the emitted PowerPC words really jump where intended.
* **Updates** (`Versions`, `VersionsFile`, `Update`, `UpdateConvergence`, `UpdateEffect`, `UpdateOrder`; laws in
  `VersionLaws`, `UpdateLaws`). A run is a sequence of I/O steps, any of which may be the last to succeed. For lists
  in any form the code reads, interrupted runs converge to the card one uninterrupted run leaves if the selected
  versions ascend; `UpdateOrder` builds runs that do not converge for lists that do not ascend.
* **Codecs** (`AsciiSafe`, `Utf8`, `WordWrap`, `UpnpJson`, `JsonLexemes`, `RegistryTokens`, `UpnpRegistry`,
  `RegistryText`, `RegistryMistakes`, `Stun`, `Settings`, `Pixels`, `TiledTexture`, `YCbCr`; laws in
  `TransliterationLaws`, `WrapLaws`, `RegistryLaws`, `StunLaws`, `SettingsLaws`, `PixelLaws`). Each loop is proved
  against a specification, and the specification against a reference: a round trip, a token grammar, a per-pixel
  conversion.

Loops and objects of the source are methods and classes here, each tied by its `ensures` to a function; the lemmas
are about those functions. The law modules fix what the smallest of them compute, in terms of inputs and outputs and
with the constants written out, so that the theorems do not rest on definitions they share with the code alone.
Words are integers below 2^32 with explicit wrap-around, and masks and shifts are the functions of `Bits`; the
packed 64-bit texture expressions are bit-vectors.

## Where the code is narrower than it looks

* `RRC_PPC_BRANCH` jumps to its address only if that is a multiple of four, because bcctr ignores the two low
  bits of CTR (`Ppc.BranchLandsExactly`). All addresses in the tables are.
* Updates converge when the selected versions ascend strictly: `VersionsFile.ResumesExactlyIffAscending` shows that
  re-filtering resumes exactly then and only then, and `UpdateOrder.NonAscendingDiverges` gives, for every list whose
  selected part does not ascend but has distinct URLs and versions that fit their buffer, archives and an interruption
  after which a successful rerun leaves another card. The version write has to be atomic: a version file that does not
  parse stops every later run (`UpdateConvergence.UnreadableVersionIsFinal`), and `Versions.CutVersionParses` says
  which torn texts parse.
* The STUN walk runs to the end of the datagram, not of the length in its header, and does not look at the magic
  cookie. Running past the message makes no difference exactly if the attributes behind it give, of each kind, no
  address or the last one given inside (`Stun.WalkHonoursLengthIff`); `Stun.AddressBehindMessage` is an accepted
  datagram whose mapped address lies behind the end of the message.
* The registry lookup compares text, so it can take a field for a code. In
  {"401":{"501":"x"},"402":{..},"501":{..}} looking up 501 stops at the field and returns the texts of 402
  (`RegistryMistakes.WrongTextsFor501`). `RegistryMistakes.StopsAtEntryIff` gives the exact condition for stopping
  at the code's own entry: no field in front of it has a key that answers the code, which is the code itself or a
  string that ends in an escaped quote and the code. The theorems about the texts returned ask for that, that no
  entry's key other than the code answers it, and that nothing but "name", "description" and "solution" answers
  these inside an object (`UpnpRegistry.Clear`); keys and values are otherwise any JSON strings. Escapes other than
  those for quote, backslash, slash, newline, carriage return and tab are taken as the character behind the
  backslash. `strstr` and `strchr` may run past the registry into the memory behind it, which the model includes up
  to the next NUL.
* A memory patch of a word that a hook overwrites commutes with the hook exactly if it keeps both words the place
  holds, the hook's own and the one it replaced: if it applies to one of them, it stores the same word
  (`Hooks.PatchOfHookedWordCommutesIff`). What happens in every case is that hooks come first and patches after
  (`Hooks.StagedHooksThenPatches`).
* A settings file that could not be written completely is rejected on the next read, so that the defaults and
  what was read before the cut are all that is left of it (`Settings.SettingsFile.Store`).
* `_rrc_riivo_combine_paths` cuts a joined path that does not fit and terminates it, but does not terminate a lone
  path that does not fit, because `strncpy` does not. Its callers always allocate enough.
* The comment on `_rrc_riivo_combine_paths` promises lower-casing for joined paths; the code lower-cases in all
  three cases, and so does the model.

## Model

| member | source | states |
|---|---|---|
| `CStrings.HashString` | shared/hash.c:32-42 | the loop computes the multiplicative hash of the text modulo 2^32 |
| `CStrings.HashStringLowercase` | shared/hash.c:44-54 | equals the launcher's hash of the lower-cased text, so both sides agree on every key |
| `LookupLaws.HashIsPolynomial` | shared/hash.c:32-42 | wrapping at every step is wrapping once: the hash is the polynomial of the characters at 31, modulo 2^32 |
| `LookupLaws.CapitalsLower` | shared/hash.c:44-54 | A to Z become a to z |
| `LookupLaws.OthersStay` | shared/hash.c:44-54 | a text without capital letters is its own lower-casing |
| `CStrings.StrCiCmp` | runtime-ext/source/util.c:44-60 | zero exactly on texts equal up to case, otherwise the byte difference at the first place they differ |
| `Vecs.Vec.Push` | source/vec.c:42-58 | contents become the old ones plus the value; the block is replaced exactly when full, with double capacity |
| `Vecs.Vec.SwapRemove` | source/vec.c:60-70 | the last element takes the removed one's place, the array stays |
| `Vecs.SwapRemovedMultiset` | source/vec.c:60-70 | as a multiset exactly the removed element is gone |
| `PatchLoader.RemoveReplacement` | source/loader/riivo_patch_loader.c:122-135 | drops the first entry with the same hash and text, by swap-remove, and nothing else |
| `PatchLoader.Loader.FindSdFile` | source/loader/riivo_patch_loader.c:164-173 | the first entry with that path, or -1 exactly when it is not listed |
| `PatchLoader.Loader.InternSdFile` | source/loader/riivo_patch_loader.c:164-200 | a known path keeps its entry number, a new one is appended, a missing file that must exist is dropped (its copy in mem1 is `PackedIndex.PackedLoader.NotePath`) |
| `PatchLoader.Loader.HandleFilePatch` | source/loader/riivo_patch_loader.c:140-230 | the three vectors and the main.dol override become exactly what one registration prescribes: main.dol, AppleDouble files, missing files, full-path and file-name keys, later overriding earlier |
| `FolderPatch.CombinePaths` | source/loader/riivo_patch_loader.c:242-266 | the buffer holds the lower-cased combination, NUL-terminated, as far as it fits; with both lengths and two, as the callers allocate, all of it |
| `FolderPatch.CombinedAssociative` | source/loader/riivo_patch_loader.c:242-266 | combining folder, subfolder and file in either grouping gives the same path, whatever slashes the parts begin or end with |
| `FolderPatch.HandleFolderPatch` | source/loader/riivo_patch_loader.c:268-324 | the recursive folder registration leaves the tables that registering its walk in order leaves, and fails exactly at a subfolder that does not open |
| `FolderPatch.WalkIsFlat` | source/loader/riivo_patch_loader.c:268-324 | a complete walk of any tree registers each file once, in order, under its whole relative path on both sides |
| `FolderPatch.FolderContinuesParse` | source/loader/riivo_patch_loader.c:430-464 | a folder behind earlier registrations acts as if its files had been listed one by one |
| `FolderLaws.CombinedWithNothing` | source/loader/riivo_patch_loader.c:242-266 | an empty part leaves the other, lower-cased |
| `FolderLaws.CombinedBySlash` | source/loader/riivo_patch_loader.c:242-266 | two parts are joined by exactly one slash, whichever of them brings one |
| `FolderLaws.DotsAreSkipped` | source/loader/riivo_patch_loader.c:287-290 | the folder itself and its parent are passed over |
| `FolderLaws.FileIsRegistered` | source/loader/riivo_patch_loader.c:292-305 | a file is registered under both folders, not to be checked for existence |
| `FolderLaws.SubfolderIsWalked` | source/loader/riivo_patch_loader.c:306-316 | subfolders count only in a recursive walk, and there one that does not open is an error |
| `RiivoIndex.RegisteredRefines` | source/loader/riivo_patch_loader.c:140-230 | one registration keeps the tables equal, as multisets, to two last-wins maps; keys stay unique, SD paths distinct, entry numbers valid, and listed SD paths never move |
| `RiivoIndex.RegisteredAllRefines` | source/loader/riivo_patch_loader.c:430-464 | the same after any sequence of registrations |
| `RiivoIndex.EntryNumbersStable` | source/loader/riivo_patch_loader.c:190-200 | an entry number once given keeps its path through all later registrations |
| `RiivoIndex.SearchIsMapLookup` | runtime-ext/source/dvd.c:159-177 | searching any arrangement of a table is looking the lower-cased text up in the map it stands for |
| `RiivoIndex.LookupAgreesWithPlainMaps` | runtime-ext/source/dvd.c:183-217 | end to end: for all registrations, card contents, queries, hash collisions and orders of equal hashes, the runtime answer is that of the two plain last-registration-wins maps, file-name map first |
| `PackedIndex.PackedLoader.HandleFilePatch` | source/loader/riivo_patch_loader.c:140-230 | with every new path and every accepted key interned below mem1: the tables become what the registration prescribes, and each entry has the address of a region that holds its text |
| `PackedIndex.PackedLoader.RegisterAll` | source/loader/riivo_patch_loader.c:430-464 | the same over all registrations of a parse, with room for their strings |
| `PackedIndex.PackedLoader.Pack` | source/loader/riivo_patch_loader.c:515-545 | after the sort, memory holds SD records and 12-byte replacement records whose pointers lead to the interned texts: reading it back gives the whole index |
| `PackedIndex.PackedLookupAgrees` | runtime-ext/source/dvd.c:183-217 | for all registrations and queries, searching the records in memory and following their pointers leads to the SD path that the plain last-registration-wins maps give |
| `PackedIndex.MemorySearchIsTableSearch` | runtime-ext/source/dvd.c:159-177 | the first record in memory whose hash and pointed-to text answer a query gives the entry number that the denoted table gives |
| `PackedIndex.MemoryResolves` | runtime-ext/source/dvd.c:183-217 | resolving a path from the bytes of both tables is resolving it in the index they denote |
| `PackedLaws.ReplacementLaidOut` | shared/riivo.h:36-44 | a replacement is twelve bytes: pointer, hash and entry number, each with its most significant byte first |
| `PackedLaws.SdFileLaidOut` | shared/riivo.h:28-34 | an SD file is eight bytes: the pointer, and a null pointer |
| `DvdLookup.SearchReplacementByHash` | runtime-ext/source/dvd.c:120-154 | on a hash-sorted table: the leftmost index of the hash, or -1 exactly when it does not occur; both nested loops end |
| `DvdLookup.SearchReplacement` | runtime-ext/source/dvd.c:159-177 | finds exactly the first entry of the whole table whose hash and case-folded text match |
| `DvdLookup.ResolvePathToEntryNum` | runtime-ext/source/dvd.c:183-217 | strips one slash, tries the last path segment in the file-name table, then the whole path in the full table |
| `LookupLaws.LeadingSlashIsDropped` | runtime-ext/source/dvd.c:183-191 | a query that begins with a slash gives what it gives without it, for every disc |
| `LookupLaws.FullPathAnswers` | runtime-ext/source/dvd.c:183-217 | after any registrations, in any order of the tables: the file registered last under "/" and a path, in any case, is what that path gives, with or without the slash, when no file-name key equals its part behind the last slash |
| `LookupLaws.FileNameAnswers` | runtime-ext/source/dvd.c:183-217 | the file registered last under a bare name is what every path gives that ends in that name, in any case |
| `LookupLaws.OthersKeepAnswer` | source/loader/riivo_patch_loader.c:140-230 | a registration for neither the path nor its last part leaves the answer as it was |
| `LookupLaws.MainDolIsRemembered` | source/loader/riivo_patch_loader.c:150-155 | a main.dol in any case is remembered by itself and enters no table |
| `LookupLaws.MainDolIsKept` | source/loader/riivo_patch_loader.c:140-230 | no other registration changes it |
| `LookupLaws.IgnoredChangesNothing` | source/loader/riivo_patch_loader.c:157-189 | AppleDouble files, and files that must exist and do not, change nothing |
| `LookupLaws.SomeOrderIsAccepted` | source/loader/riivo_patch_loader.c:522-523 | every table has a non-descending order, and it is one the search accepts |
| `LookupLaws.EveryOrderIsAccepted` | source/loader/riivo_patch_loader.c:522-523 | so is every other such order, whatever hashes collide |
| `EntryTag.TagRoundTrip` | runtime-ext/source/dvd.c:45-51 | entry numbers below 2^22 survive tagging and untagging, are recognised, and stay positive as signed words |
| `EntryTag.SpecialIsTagged` | runtime-ext/source/dvd.c:45-51 | every recognised word is the tag of exactly one entry number below 2^22 |
| `OpenFiles.OtherWordsGoToGame` | runtime-ext/source/dvd.c:313-416 | words outside 0x7F400000 to 0x7F7FFFFF are the game's: the call goes to the game and changes nothing; fatal is only a FastOpen that the game answers from that range |
| `OpenFiles.TaggedWordsAreEntries` | runtime-ext/source/dvd.c:45-51 | words inside it are about the entry their low 22 bits number |
| `OpenFiles.DvdFiles.FindUnusedSlot` | runtime-ext/source/dvd.c:100-111 | the first slot whose count is zero, or none exactly when all sixteen are in use |
| `OpenFiles.DvdFiles.OpenEntryNum` | runtime-ext/source/dvd.c:222-256 | the arrays and the SD calls after an open are those of the state machine's open step |
| `OpenFiles.DvdFiles.FastOpenImpl` | runtime-ext/source/dvd.c:313-330 | tagged entry numbers open their SD file, all others go to the game; fatal if the game's own FastOpen stores an address that reads as a tag |
| `OpenFiles.DvdFiles.ReadPrioImpl` | runtime-ext/source/dvd.c:334-367 | seeks and reads the SD file of a tagged handle; anything else goes to the game; driver errors are fatal |
| `OpenFiles.DvdFiles.CloseImpl` | runtime-ext/source/dvd.c:370-416 | one count less; at zero the SD file is closed and the entry forgotten |
| `OpenFiles.StepKeepsInv` | runtime-ext/source/dvd.c:222-416 | every legal call keeps open entries and used slots in one-to-one correspondence with exact counts, and makes an SD open or close exactly at 0 to 1 and 1 to 0 |
| `OpenFiles.Exec` | runtime-ext/source/dvd.c:222-416 | over every legal sequence of calls the correspondence holds and the SD calls made are exactly the expected ones |
| `OpenFiles.ReadGivesOwnBytes` | runtime-ext/source/dvd.c:334-367 | after any legal run, a read through an open handle gives as many bytes as asked for and the file still has, byte i being the file's byte at offset + i |
| `OpenFiles.FullExactlyAtSixteen` | runtime-ext/source/dvd.c:100-111 | no slot is free if and only if sixteen different files are open |
| `OpenFiles.FatalExactlyWhen` | runtime-ext/source/dvd.c:222-416 | a legal call is fatal if and only if it is a first open with sixteen files open, the SD driver fails a call that is really made, or the game's own FastOpen answers with one of our addresses |
| `OpenFiles.HandleLeadsBack` | runtime-ext/source/dvd.c:222-256 | the handle an open returns leads later calls to the same entry and carries its file's size |
| `Alignment.AlignDownIsFloor` | source/util.c:25-28 | for powers of two the mask gives the largest multiple not above the number |
| `Alignment.AlignUpIsCeiling` | source/util.c:30-33 | without wrap-around the smallest multiple not below the number |
| `Alignment.InvalidatedRangeCovers` | source/util.c:35-47 | the range given to the cache instructions is whole lines and covers every byte asked for |
| `Arena.Mem1.Carve` | source/loader/riivo_patch_loader.c:35-43 | a region directly below all others; everything carved before keeps its bytes |
| `Arena.Mem1.BumpAllocString` | source/loader/riivo_patch_loader.c:35-43 | the NUL-terminated copy lies directly below everything carved before |
| `Arena.Mem1.ReserveMemoryPatches` | source/loader/riivo_patch_loader.c:373-375 | room for 128 records is carved before anything else, and an aligned mem1 stays aligned |
| `Arena.Mem1.StoreRecord` | source/loader/riivo_patch_loader.c:496-505 | filling a record changes that record and no other region |
| `Arena.Mem1.PackDisc` | source/loader/riivo_patch_loader.c:525-535 | SD entries, full-path table and file-name table end up disjoint, aligned, in this order and intact |
| `Arena.InternedStringReadsBack` | source/loader/riivo_patch_loader.c:35-43 | an interned string reads back as the text interned after every later allocation |
| `Arena.RegionsDisjoint` | source/loader/riivo_patch_loader.c:525-535 | no byte belongs to two regions and every region lies between final and initial mem1 |
| `Ppc.BranchWords` | source/loader/ppc.h:4-34 | the macro's shifts and ORs give the four encodings lis r9, ori r9, mtctr r9, bctr |
| `Ppc.BranchReaches` | source/loader/ppc.h:28-34 | on a step model of addis, ori, mtspr and bcctr the four words end at the address with its two low bits cleared, changing only r9 and CTR |
| `Ppc.BranchLandsExactly` | source/loader/ppc.h:28-34 | the jump lands on the address itself if and only if it is a multiple of four |
| `Dol.PatchDol` | source/loader/game_dol_loader.c:47-91 | BSS cleared, eighteen sections copied in order from the staged file, then the conditional patches in order |
| `Dol.ClearBss` | source/loader/game_dol_loader.c:49-57 | zero exactly in the BSS range, the header being read as it goes |
| `Dol.CopySection` | source/loader/game_dol_loader.c:65-72 | one section copied byte by byte, later bytes reading what earlier ones wrote |
| `Dol.ApplyPatch` | source/loader/game_dol_loader.c:78-91 | the word is stored if there is no original or memory holds it |
| `Dol.LoadedIs` | source/loader/game_dol_loader.c:47-76 | with the staged file not overwritten: the last covering section's byte, else zero in BSS, else unchanged |
| `Dol.PatchActsAlone` | source/loader/game_dol_loader.c:78-91 | a patch at its own aligned address acts as if it were the only one |
| `Dol.PatchOrderIrrelevant` | source/loader/game_dol_loader.c:78-91 | aligned patches at distinct addresses give the same memory in every order |
| `LaunchLaws.HeaderReadsBack` | shared/dol.h:29-38 | a header of 57 words: offsets, addresses and sizes of eighteen sections, then address and size of BSS, each at its place |
| `LaunchLaws.SectionByteLands` | source/loader/game_dol_loader.c:59-76 | a byte of the last section that covers it is that section's staged byte |
| `LaunchLaws.BssByteIsZero` | source/loader/game_dol_loader.c:49-57 | a byte of BSS that no section covers is zero |
| `LaunchLaws.OtherByteStays` | source/loader/game_dol_loader.c:47-76 | every other byte stays as it was |
| `LaunchLaws.PatchStores` | source/loader/game_dol_loader.c:78-91 | a patch without an original word, or whose original word memory holds, stores its value |
| `LaunchLaws.PatchSkips` | source/loader/game_dol_loader.c:78-91 | any other patch changes nothing |
| `LaunchLaws.FinalWord` | source/loader/game_dol_loader.c:78-91 | in the final memory every patch of an independent list has stored its value or left the game's own word, by that same condition |
| `LaunchLaws.LastPatchStays` | source/loader/game_dol_loader.c:78-91 | patches apply in order: an unconditional last one stays |
| `Hooks.FindSectionByAddr` | source/loader/binary_loader.c:26-39 | the first section that covers the address and the staged place of the address, or nothing exactly when no section covers it |
| `HookLaws.SectionFoundIs` | source/loader/binary_loader.c:26-39 | the first section whose range, its end wrapping at 32 bits, holds the address |
| `HookLaws.StagedPlaceIs` | source/loader/binary_loader.c:26-39 | as far behind the staged start as the address is behind the section's own |
| `Hooks.HookFunction` | source/loader/loader.c:77-120 | saves the four words and the back jump in the trampoline and overwrites the staged function; fatal exactly outside all sections |
| `Hooks.PatchDvdFunctions` | source/loader/loader.c:77-123 | the fold of all hooks over memory, fatal if and only if some function is in no section |
| `Hooks.StagedWriteCommutes` | source/loader/loader.c:95-122 | writing into the staged copy and then loading equals loading and then writing at the real address |
| `Hooks.AllHooksCommute` | source/loader/loader.c:95-122 | the same for all hooks one after the other |
| `Hooks.StagedPatchingIsRealPatching` | source/loader/loader.c:95-122 | hooking the staged DOL and then running patch_dol, memory patches included, equals patch_dol first and hooks at the real addresses after, for patches apart from the hooks |
| `Hooks.StagedHooksThenPatches` | source/loader/loader.c:95-122 | wherever the memory patches fall, the result is loading, then hooking at the real addresses, then patching |
| `Hooks.PatchOfHookedWordCommutesIff` | source/loader/loader.c:95-122 | a patch of a hooked word, conditional or not, commutes with the hook if and only if it keeps both the hook's own word and the word the hook replaced |
| `Hooks.UnconditionalPatchCommutesIff` | source/loader/loader.c:95-122 | an unconditional one if and only if it stores the hook's own word over that same word |
| `PulsarLoader.LoadPulsarLoader` | source/loader/binary_loader.c:41-67 | fatal outside all sections, an error if the file does not open, otherwise the whole file stands in the staged section |
| `PulsarLoader.CopyFile` | source/loader/binary_loader.c:57-61 | reading 4096 bytes at a time writes the file once, contiguously |
| `PulsarLoader.StagedCopyIsRealCopy` | source/loader/binary_loader.c:41-67 | after patch_dol the code stands where copying it to its real address would have put it |
| `DvdHooks.TablesAreConsistent` | source/loader/loader_addrs.h:53-113 | in all regions back jumps go to the hooked address plus 16, targets are multiples of four, trampolines end below the signature |
| `DvdHooks.TablesApart` | source/loader/loader_addrs.h:53-113 | hooked windows and trampolines of a region are pairwise disjoint |
| `DvdHooks.HooksInPlace` | source/loader/loader.c:95-122 | installing all hooks puts each in place and no later one disturbs an earlier one |
| `DvdHooks.HookedFunctionsReachReplacements` | source/loader/loader.c:55-123 | in the final memory every hooked function runs into its replacement changing only r9 and CTR, and every trampoline holds the four lost instructions and a jump behind them |
| `DvdHooks.PatchRegion` | source/loader/loader.c:55-123 | the hooks of the disc's region; an unsupported region is fatal and changes nothing |
| `HookLaws.TablesAgreeWithLinker` | runtime-ext/base.ld:29-41 | each function's custom entry and trampoline in the launcher's tables are those the runtime extension is linked with |
| `HookLaws.RegionOfLetter` | source/loader/loader_addrs.h:53-113 | exactly P, E and J are supported, and each has its game's addresses |
| `HookLaws.FunctionReachesItsReplacement` | source/loader/loader.c:177-277 | in the game's first memory each function of the disc's game runs into the section linked as its own replacement |
| `LaunchSequence.Launch` | source/loader/loader.c:177-277 | hooks, then Loader.pul, then patch_dol: the game starts exactly if none of them stops, from exactly that memory |
| `LaunchSequence.LaunchedIsFirstMemory` | source/loader/loader.c:177-277 | for a supported region whose hooks and Loader.pul fit, it does start, from the staged writes followed by patch_dol |
| `LaunchSequence.HooksWorkWithLoader` | source/loader/loader.c:177-277 | with Loader.pul copied between hooking and patch_dol, every hook and trampoline of every region works in that memory, and what the trampolines keep is what the unhooked game with Loader.pul has there |
| `LaunchLaws.LoaderStands` | source/loader/loader.c:177-277 | in the game's first memory byte i of Loader.pul stands at its address + i, where no patch falls on it |
| `LaunchLaws.PatchStands` | source/loader/loader.c:177-277 | there an unconditional one of a list of independent patches has stored its value |
| `Versions.OlderIsStrictTotalOrder` | source/versionutils.c:24-40 | older is a strict total order |
| `VersionLaws.OlderIsSmaller` | source/versionutils.c:24-40 | older is smaller by the number (major * 2^32 + minor) * 2^32 + patch |
| `VersionLaws.SelectedIsGreater` | source/update/versionsfile.c:246-387 | selected are exactly the entries greater by that number |
| `Versions.FromString` | source/versionutils.c:42-90 | one pass gives up to three parts, missing ones zero, clamped to 32 bits; an empty section is an error; nothing is read behind the third |
| `Versions.PrintedParses` | source/update/update.c:78-106 | printing a version and reading it back is the identity |
| `VersionLaws.PartsAre` | source/versionutils.c:42-90 | one, two or three parts give major, minor and patch; what follows a third part is not looked at |
| `VersionLaws.EmptyPartFails` | source/versionutils.c:42-90 | an empty part among the first three, or an empty text, is an error |
| `VersionLaws.NumberIsRead` | source/versionutils.c:42-90 | a decimal number, with or without a sign, is read up to the first other character and clamped |
| `VersionLaws.NoNumberIsZero` | source/versionutils.c:42-90 | a part that does not begin with a number is zero |
| `VersionLaws.PrintedIs` | source/update/update.c:78-106 | three decimal numbers with dots between them |
| `Versions.CutVersionParses` | source/versionutils.c:42-90 | a version text cut short fails to parse if and only if the cut is at the start or right behind a dot |
| `VersionsFile.SplitBy` | source/update/versionsfile.c:184-235 | all tokens, or code 2 if and only if there are more than 4096 |
| `VersionsFile.TokensHoldNoSeparator` | source/update/versionsfile.c:184-235 | no token holds the separator |
| `VersionsFile.SplitLosesNothing` | source/update/versionsfile.c:184-235 | joining the tokens restores the text up to one trailing separator |
| `VersionsFile.NewerEntries` | source/update/versionsfile.c:246-387 | the entries newer than the current version in file order, or the corrupted-file error |
| `VersionLaws.LineIsRead` | source/update/versionsfile.c:246-387 | a line is a version, a space and a text; what follows a second space is not looked at |
| `VersionsFile.NewerIsFiltered` | source/update/versionsfile.c:246-387 | reading and filtering line by line is reading the whole list, in any form, and then filtering |
| `VersionsFile.NewerOfPrintedList` | source/update/versionsfile.c:246-327 | of a printed list exactly the newer entries are selected, each with its own URL or path |
| `VersionsFile.ResumesExactlyIffAscending` | source/update/versionsfile.c:246-327 | a fresh run after any update selects exactly the remaining ones if and only if the selected list is strictly ascending |
| `Update.Updater.ExtractAll` | source/update/update.c:381-516 | entries in order: unsafe paths fail, directories only count, files are written; stops at the first failure |
| `Update.Updater.RemoveDeleted` | source/update/update.c:595-610 | removes exactly the files listed for this version |
| `Update.Updater.InstallOne` | source/update/update.c:556-615 | download, extract, drop the archive, delete, write the version, in this order, stopping at the first failure |
| `Update.Updater.DoUpdatesWithState` | source/update/update.c:552-619 | the updates one after the other, as a sequence of I/O steps any of which may be the last to succeed |
| `Update.Updater.DoUpdates` | source/update/update.c:621-724 | reads the version, filters both lists by it and installs what is newer; a declined prompt is success with the card as it was |
| `UpdateConvergence.StepsAbsorb` | source/update/update.c:381-516 | performing steps on a card that holds partial or torn results of the same steps gives the same card |
| `UpdateConvergence.RunPerforms` | source/update/update.c:621-724 | from a card showing some version, and lists in any form that reads as these entries, a run performs the steps of everything newer |
| `UpdateConvergence.OneMoreRun` | source/update/update.c:552-619 | one more run, stopped anywhere with anything half-written, leaves a card from which the rest leads to the same end |
| `UpdateConvergence.EnoughBudgetSucceeds` | source/update/update.c:552-619 | a run whose steps are not rejected and none of which fails succeeds |
| `UpdateConvergence.InterruptedRunsConverge` | source/update/update.c:552-619 | any number of interrupted runs and then a successful one leave the card, version file included, that one uninterrupted run leaves, whatever form the lists have |
| `UpdateConvergence.UnreadableListChangesNothing` | source/update/versionsfile.c:246-387 | a list that is too long or holds a version that does not parse stops every run before it changes anything |
| `UpdateOrder.NonAscendingDiverges` | source/update/update.c:552-724 | for every list whose newer part, with distinct URLs and versions that fit their buffer, does not ascend there are archives and an interruption after which a successful rerun leaves another card than one uninterrupted run |
| `UpdateEffect.UpdateStepsEffect` | source/update/update.c:381-619 | one update's effect on every path: version written, its deletions and the archive gone, the last entry of each name in place, everything else as before |
| `UpdateEffect.RejectedExactlyWhen` | source/update/update.c:367-379 | an update is rejected if and only if its archive is missing, it holds an unsafe path, or the version text does not fit |
| `UpdateLaws.UnsafeIff` | source/update/update.c:367-379 | refused are exactly the empty name, names from the root by either slash, and names with two dots in a row |
| `UpdateLaws.PerformedIffAccepted` | source/update/update.c:381-619 | an update performs all its steps if and only if its archive is there, holds no refused name, and its version has at most 31 characters |
| `UpdateLaws.VersionIsWritten` | source/update/update.c:78-106 | afterwards version.txt holds the update's version and the archive is gone |
| `UpdateLaws.FileIsInstalled` | source/update/update.c:423-516 | a file of the archive is there with its content, under its name in any case, unless a later entry or a deletion takes it |
| `UpdateLaws.DeletedIsGone` | source/update/update.c:595-610 | a file that a deletion for this version names is gone, named with a slash in front or without |
| `UpdateLaws.OtherFilesStay` | source/update/update.c:381-619 | every other file stays as it was |
| `UpdateLaws.FailedWrite` | source/update/update.c:495-508 | a file write that fails may leave any content |
| `UpdateLaws.FailedStep` | source/update/update.c:552-619 | any other step that fails leaves the card as it was |
| `UpdateLaws.NoEndsTheRun` | source/update/update.c:621-724 | with updates pending, a no to the update or to a large download ends the run |
| `UpdateLaws.NothingNewerIsSuccess` | source/update/update.c:621-724 | with nothing newer listed the run succeeds and changes nothing |
| `UpdateLaws.NoVersionIsFailure` | source/update/update.c:649-652 | a version file that is missing, does not parse or is negative ends the run before it begins |
| `UpdateEffect.SuccessfulRunContents` | source/update/update.c:621-724 | after a successful run every file is what the newer updates, one after the other, make of it |
| `UpdateConvergence.UnreadableVersionIsFinal` | source/update/update.c:44-76 | a version file that does not parse stops every later run |
| `AsciiSafe.ConvertToAscii` | source/console.c:269-359 | with the output aliasing the input or not: the first bytes of the transliteration of the original text that fit, NUL-terminated, nothing behind touched |
| `AsciiSafe.UnitOf` | source/console.c:280-356 | a unit consumes one to four bytes and its replacement is ASCII, not empty and never longer than what it consumes |
| `AsciiSafe.Transliterated` | source/console.c:269-359 | all ASCII, no NUL, never longer than the text |
| `AsciiSafe.MasksAreFields` | source/console.c:292-318 | the masks and shifts of the decoder are the bit fields of UTF-8 |
| `TransliterationLaws.TwoBytes` | source/console.c:292-298 | a two-byte sequence, recognised and decoded with the source's masks and shifts, is one unit |
| `TransliterationLaws.ThreeBytes` | source/console.c:299-307 | likewise three bytes |
| `TransliterationLaws.FourBytes` | source/console.c:308-318 | likewise four |
| `TransliterationLaws.Malformed` | source/console.c:320-327 | any other byte from 0x80 on is one question mark |
| `TransliterationLaws.OthersAreQuestionMarks` | source/console.c:331-348 | fourteen code points have a spelling; every other one is a question mark |
| `TransliterationLaws.UmlautsAreSpelled` | source/console.c:331-340 | the spellings of umlauts and sharp s |
| `TransliterationLaws.PunctuationIsSpelled` | source/console.c:341-348 | the spellings of dashes, quotes and dots |
| `WordWrap.PrintWrapped` | source/console.c:203-267 | for every text and width: it stops, no line is longer than the width, all ink is printed once in order, and a line ends at its paragraph's end, at the last space that fits, or inside a word longer than the width |
| `Utf8.UnitOfEncoded` | source/console.c:289-318 | the decoder takes the RFC 3629 encoding of a code point for one unit, wherever it stands and whatever follows |
| `Utf8.EncodedTransliterates` | source/console.c:269-359 | UTF-8 text at the end of any text is transliterated code point by code point |
| `WordWrap.WrappingIsUnique` | source/console.c:203-267 | good lines that each start behind the previous one and its single line break are unique, so the output is settled completely |
| `WrapLaws.TwoWords` | source/console.c:235-256 | two words with a space or a tab between them share a line exactly if they fit on it together |
| `WrapLaws.TwoLines` | source/console.c:257-265 | a line feed, a carriage return or both together end the line |
| `WrapLaws.EmptyLine` | source/console.c:225-230 | a second line break is an empty line |
| `WrapLaws.LongWord` | source/console.c:235-265 | a word of up to two widths is cut behind the first |
| `WrapLaws.WordThatFits` | source/console.c:215-216 | spaces and tabs in front of a line are not printed |
| `WordWrap.TakeLine` | source/console.c:235-265 | one line is a good line, and behind it one line break and spaces are skipped |
| `UpnpJson.FindKey` | source/upnp_error_codes.c:22-40 | the colon behind the first occurrence of the quoted key that has one before the end |
| `UpnpJson.ReadString` | source/upnp_error_codes.c:8-97 | succeeds if and only if the key has a string value that ends in time and fits; the buffer then holds its ASCII transliteration |
| `UpnpJson.CopyValue` | source/upnp_error_codes.c:54-92 | copies the decoded value up to its unescaped quote, or fails |
| `UpnpJson.FindObjectEnd` | source/upnp_error_codes.c:108-148 | the scan equals its recursive definition by depth and string state |
| `UpnpJson.Lookup` | source/upnp_error_codes.c:150-228 | the three results: no code, known with all three texts, unknown |
| `JsonLexemes.MatchEndsWithString` | source/upnp_error_codes.c:22-40 | a quoted key found inside a string, whatever that holds, can only end at the string's own closing quote |
| `JsonLexemes.CleanLexemes` | source/upnp_error_codes.c:22-40 | no key match begins in values, punctuation or other keys, whatever the strings hold |
| `JsonLexemes.RawDecodes` | source/upnp_error_codes.c:54-92 | copying a string body gives its unescaped text if and only if that fits |
| `JsonLexemes.EndSkips` | source/upnp_error_codes.c:108-148 | only brace tokens move the depth; braces and escaped quotes in strings do not |
| `JsonLexemes.EndIs` | source/upnp_error_codes.c:108-148 | the object ends at its own closing brace |
| `UpnpRegistry.ReadTextIs` | source/upnp_error_codes.c:8-97 | inside an object of any JSON strings, reading a key gives the text of the first field that answers it, or nothing |
| `UpnpRegistry.LookupIsExpected` | source/upnp_error_codes.c:150-228 | for every registry of any JSON strings in every layout and every positive code that nothing else answers, the lookup gives what the registry holds, or unknown |
| `RegistryLaws.ScanSkipsWhitespace` | source/upnp_error_codes.c:31-33 | the scan passes over space, tab, line feed and carriage return, and over nothing else |
| `RegistryLaws.EscapesAre` | source/upnp_error_codes.c:63-84 | the three letters that stand for control characters; any other escaped character is itself |
| `RegistryLaws.NoCodeIsAnswered` | source/upnp_error_codes.c:158-166 | a code that is not positive gets the first fixed text, whatever the registry holds |
| `RegistryLaws.UnknownIsAnswered` | source/upnp_error_codes.c:150-228 | a code that nothing answers gets the second |
| `RegistryLaws.ShownIff` | source/upnp_error_codes.h:10-12 | an object is shown if and only if it has all three texts, of at most 63, 255 and 255 characters |
| `RegistryText.EscapedReadsBack` | source/upnp_error_codes.c:63-84 | unescaping undoes escaping for every text |
| `RegistryText.RegistryAnswers` | source/upnp_error_codes.c:150-228 | the same for the registry as JSON text with arbitrary blanks and arbitrary memory behind it |
| `RegistryText.PrintedRecordsReadBack` | source/upnp_error_codes.c:150-228 | records of ASCII texts that fit, printed as JSON: exactly the stored triple is returned, unknown when the code is absent, even when values hold braces, quotes, keys or codes |
| `RegistryMistakes.StopsAtEntryIff` | source/upnp_error_codes.c:182-204 | the search for a code stops behind its own entry's key if and only if no field in front of that entry answers the code |
| `RegistryMistakes.FieldTakenForCode` | source/upnp_error_codes.c:182-215 | behind a field that answers the code, the next entry's object is read instead |
| `RegistryMistakes.WrongTextsFor501` | source/upnp_error_codes.c:182-215 | a registry that gives the texts of 402 for 501 in every layout |
| `Stun.WaitForMatchingResponse` | source/stun.c:95-126 | the first datagram that matches the transaction, unless receiving fails before it |
| `StunLaws.AcceptedIff` | source/stun.c:95-126 | of all messages laid out as in RFC 5389, accepted are exactly those of type 0x0101 with this transaction ID and a length of at most what arrived, whatever stands for the magic cookie |
| `StunLaws.ShortIsDiscarded` | source/stun.c:110-111 | less than twenty bytes are not accepted |
| `Stun.WalkAttributes` | source/stun.c:355-423 | the loop notes the visited attributes in order, reads inside the datagram and stops on any bytes; success if and only if a mapped address was found |
| `Stun.WalkVisitsAttributes` | source/stun.c:355-415 | of a padded attribute list exactly the attributes are visited, in order |
| `Stun.ResponseGivesLast` | source/stun.c:355-423 | the result is the last valid IPv4 address of each kind: mapped, origin and other |
| `Stun.XorRoundTrip` | source/stun.c:195-218 | XOR decoding undoes XOR encoding for every address and port |
| `StunLaws.PlainAddressIs` | source/stun.c:195-218 | port and address are the big-endian numbers behind the family |
| `StunLaws.XorAddressIs` | source/stun.c:195-218 | in an XOR address the address is XORed with 0x2112A442 and the port with 0x2112 |
| `StunLaws.XorBitByBit` | source/stun.c:208-211 | bit k of the XOR is set exactly where bit k of its operands differs |
| `StunLaws.NoAddressIff` | source/stun.c:200-201 | no address exactly for less than eight bytes or another family than IPv4 |
| `StunLaws.MappedIsNoted` | source/stun.c:371-388 | attributes 0x0001 and 0x0020 give the mapped address, the second one by XOR |
| `StunLaws.OriginAndOtherAreNoted` | source/stun.c:390-412 | attributes 0x802B and 0x802C give origin and other address |
| `StunLaws.OthersAreIgnored` | source/stun.c:371-412 | all other attributes, and those without an IPv4 address, change nothing |
| `StunLaws.AttributeIs` | source/stun.c:357-415 | wherever it lies: kind, length, value, and the next attribute behind the padding |
| `Stun.PaddedIsMasked` | source/stun.c:414-414 | the padding mask is rounding up to a multiple of four |
| `Stun.WalkHonoursLengthIff` | source/stun.c:355-415 | walking the whole datagram equals walking the message its header announces if and only if the attributes visited behind it give, of each kind, no address or the last one given inside |
| `Stun.AddressBehindMessage` | source/stun.c:95-126 | an accepted datagram for which it adds the mapped address |
| `Settings.ParseBytes` | source/settingsfile.c:111-197 | settings assigned up to the first error, and whether there was one |
| `Settings.SettingsFile.Parse` | source/settingsfile.c:111-197 | a missing file is created with no entries and gives the defaults; so does a file that cannot be opened, created or opened again, as an error |
| `Settings.SettingsFile.Store` | source/settingsfile.c:229-245 | header and three entries, byte for byte, as far as the card takes them; succeeds exactly if it takes all; a file left incomplete is one that parsing rejects |
| `Settings.SettingsFile.SetOption` | source/settingsfile.c:199-224 | appends one entry in four writes, stopping at the first that fails, with the bytes written so far in the file |
| `Settings.SettingsFile.WriteHeader` | source/settingsfile.c:68-87 | three words in three writes, likewise |
| `Settings.EntriesReadBack` | source/settingsfile.c:139-193 | a list of entries is read entry by entry, whatever follows it |
| `Settings.WellFormedFileGivesLastValues` | source/settingsfile.c:139-193 | every well-formed file gives the last value of each known key, the default where there is none, and ignores the rest |
| `Settings.StoredFileParses` | source/settingsfile.c:229-245 | storing and parsing any settings gives them back |
| `Settings.TruncatedFileRejected` | source/settingsfile.c:111-197 | every strict prefix of a stored file is rejected |
| `SettingsLaws.StoredIs` | source/settingsfile.c:51-55 | a stored file byte by byte: "rtrw", 0, 3, and each key with its length, 4 and the value |
| `SettingsLaws.OtherMagicFails` | source/settingsfile.c:132-137 | any other magic is an error and leaves the defaults |
| `SettingsLaws.FreshFileGivesDefaults` | source/settingsfile.h:26-29 | a file without entries gives the defaults 0, 0 and 1 |
| `SettingsLaws.ShortKeyIsRead` | source/settingsfile.c:146-178 | an entry with a key of up to 31 bytes is read, wherever it stands |
| `SettingsLaws.LongKeyFails` | source/settingsfile.c:150-153 | a key length from 32 on is an error |
| `SettingsLaws.OtherLengthFails` | source/settingsfile.c:166-171 | a value length other than 4 is an error |
| `Pixels.Pack565Lanes` | source/pngu/pngu.c:264-268 | the packed expression holds the per-pixel RGB565 conversion of its four pixels |
| `Pixels.PackAlphaLanes` | source/pngu/pngu.c:334-356 | each step writes its own lane, opaque or translucent by that pixel's alpha, and leaves the others |
| `Pixels.PackOpaqueLanes` | source/pngu/pngu.c:462-473 | with an opaque default alpha the packed word holds the per-pixel RGB5A3 conversion |
| `Pixels.PackTranslucentLanes` | source/pngu/pngu.c:503-518 | with any other default alpha likewise |
| `Pixels.PackARLanes` | source/pngu/pngu.c:583-589 | the alpha-red word of RGBA8 |
| `Pixels.PackGBLanes` | source/pngu/pngu.c:590-592 | the green-blue word of RGBA8 |
| `Pixels.PackOpaqueARLanes` | source/pngu/pngu.c:631-643 | the alpha-red word with the default alpha |
| `Pixels.PackOpaqueGBLanes` | source/pngu/pngu.c:644-646 | the green-blue word without an alpha channel |
| `PixelLaws.Rgb565Is` | source/pngu/pngu.h:73-73 | five, six and five bits as quotients, red highest |
| `PixelLaws.Rgb5A3OpaqueIs` | source/pngu/pngu.h:76-78 | from alpha 224 on: the top bit and five bits a component |
| `PixelLaws.Rgb5A3TranslucentIs` | source/pngu/pngu.h:76-78 | below: three bits of alpha and four a component |
| `PixelLaws.LoadedPairs` | source/pngu/pngu.c:262-263 | eight loaded bytes are four pairs, in order |
| `PixelLaws.LanesMakeWord` | source/pngu/pngu.c:262-268 | a stored word is its four texel halves, the first one in the highest bytes |
| `TiledTexture.CopyTiles` | source/pngu/pngu.c:257-293 | every word of the texture is written with its tile row's packed pixels, nothing behind it is touched |
| `TiledTexture.TexelsDistinct` | source/pngu/pngu.c:257-293 | different texels have different places |
| `TiledTexture.IndexIsProduct` | source/pngu/pngu.c:257-260 | the place of a texel is the source's `(y * qwidth + x) * 4` words, doubled for RGBA8, plus its row in the tile |
| `TiledTexture.EveryLaneIsATexel` | source/pngu/pngu.c:257-293 | every lane of every word is some texel's |
| `TiledTexture.LoadsInside` | source/pngu/pngu.c:262-263 | the 64- and 32-bit loads stay inside their image row |
| `TiledTexture.DecodeTo4x4Rgb565` | source/pngu/pngu.c:240-298 | error unless both sides are divisible by four; otherwise texel (X,Y) is the RGB565 conversion of pixel (X,Y) |
| `TiledTexture.DecodeTo4x4Rgb5A3` | source/pngu/pngu.c:303-554 | texel (X,Y) is the RGB5A3 conversion of pixel (X,Y), with its own alpha or the default one |
| `TiledTexture.DecodeTo4x4Rgba8` | source/pngu/pngu.c:557-682 | both halves of texel (X,Y) hold pixel (X,Y) |
| `YCbCr.FieldsAreBytes` | source/pngu/pngu.c:800-808 | every component fits a byte and no dividend is negative |
| `YCbCr.WordHoldsFields` | source/pngu/pngu.c:813-815 | the ORed word holds the four components side by side |
| `YCbCr.WordOfPixels` | source/pngu/pngu.c:800-816 | the framebuffer word of two pixels: each one's luma in a byte of its own, between them the mean of their chroma |
| `YCbCr.GreyIsNeutral` | source/pngu/pngu.c:800-816 | grey pixels keep their value and have neutral chroma |
| `PixelLaws.PrimaryColours` | source/pngu/pngu.c:800-816 | luma and chroma of red, green and blue |
| `PixelLaws.RedBesideBlue` | source/pngu/pngu.c:800-816 | the word of a red pixel beside a blue one |

## Left out

- Sockets, DNS, curl, libzip, libpng, mxml, the FAT and SD drivers, video and controllers: files are maps or byte
  sequences, packets byte sequences, and driver failures inputs.
- XML traversal: the model starts from registrations, folder trees and memory patches.
- Path case on the SD card: FAT ignores it, so a folder is the same tree under its lower-cased name, and the card's
  files are keyed by lower-cased path. Other names FAT has for one file, such as short names, repeated slashes or
  letters outside ASCII in another case, are not known to be the same.
- `qsort`: any arrangement of the table is allowed where the result matters, a hash-sorted one where the search
  needs it.
- `custom_convert_path_to_entry_num_impl` and `custom_open_impl`: calls of the modelled lookup, tag and open.
- Progress, messages, error texts and the checks of free space and download size, whose outcomes are inputs of a run.
- LaunchSequence.Launch: leaves out the boot words, signature and flags written to memory before `patch_dol`.
- PatchLoader.Loader.InternSdFile: leaves the copy of the path in mem1 to `PackedIndex.PackedLoader.NotePath`.
- PatchLoader.Loader.HandleFilePatch: leaves interning to `PackedIndex.PackedLoader.HandleFilePatch`.
- Hooks.PatchDvdFunctions: leaves the choice of the region's table, and its error, to `DvdHooks.PatchRegion`.
- Hooks.StagedPatchingIsRealPatching: does not speak of patches on hooked words, because for those it holds only
  under an exact condition; `Hooks.PatchOfHookedWordCommutesIff` and `Hooks.StagedHooksThenPatches` do.
- DvdHooks.HookedFunctionsReachReplacements: leaves Loader.pul to `LaunchSequence.HooksWorkWithLoader`.
- VersionsFile.NewerEntries: does not model a reached line without a first field, or without a second one behind a
  version that parses, because the source follows a pointer it has not set there.
- UpnpRegistry.LookupIsExpected: does not say what is returned for a code that is not clear in the registry;
  `RegistryMistakes.FieldTakenForCode` does for a family of such registries.
- UpdateConvergence.InterruptedRunsConverge: takes the write of `version.txt` as atomic, because a torn one can
  leave a text that does not parse, which stops every later run.
- TiledTexture.CopyTiles: takes the packed expression as a parameter, because the five loops of the source differ
  only in it.
- FolderPatch.CombinePaths: does not model a lone path as long as the buffer, where `strlower` runs past its end.
- AsciiSafe.ConvertToAscii: does not model partial overlap of text and output; the arrays are the same or different.
- Capacities that the code does not check are preconditions or unbounded: 128 memory patches, 1024 tokens in the
  first split buffer, 2^22 SD entries, room in the arena, and staged sections that
  do not overlap each other, their header or their targets.
- Allocation failure, and integers beyond real memory sizes.
- `PNGU_YCbYCr_TO_RGB8`: floating point.
- Opcodes other than addis, ori, mtspr to CTR and bcctr; an interpreter meeting another word stops.
- `rrc_binary_load_runtime_ext`, the stack-switching assembly and cache effects beyond the address range.
