// End-to-end agreement of the launcher's registration with the game's lookup.

/**
 * The plain reading of a Riivolution file: two maps keyed by the lower-cased disc path, the last registration
 * of a key winning. The hash-sorted tables, however the sort leaves equal hashes, answer every query as the
 * plain maps do.
 */
module RiivoIndex {
  import opened CStrings
  import opened Vecs
  import opened PatchLoader
  import opened DvdLookup

  datatype PlainIndex = PlainIndex(known: set<CString>, full: map<CString, CString>, byName: map<CString, CString>)

  function PlainRegistered(p: PlainIndex, onCard: set<CString>, reg: Registration): PlainIndex {
    if reg.disc == "main.dol" || IsAppleDouble(reg.disc) then p
    else if reg.checkExists && reg.external !in onCard && reg.external !in p.known then p
    else
      var q := p.(known := p.known + {reg.external});
      if IsFullPath(reg.disc) then q.(full := q.full[reg.disc[1..] := reg.external])
      else q.(byName := q.byName[reg.disc := reg.external])
  }

  function PlainRegisteredAll(onCard: set<CString>, regs: seq<Registration>): PlainIndex {
    if regs == [] then PlainIndex({}, map[], map[])
    else PlainRegistered(PlainRegisteredAll(onCard, regs[..|regs| - 1]), onCard, Normalized(regs[|regs| - 1]))
  }

  /** What a query should give: the SD path of the file that replaces `path`, if any. */
  function PlainResolved(p: PlainIndex, path: CString): Option<CString> {
    var filename := Lower(Stripped(path));
    var segment := LastSegment(filename);
    if segment in p.byName then Some(p.byName[segment])
    else if filename in p.full then Some(p.full[filename])
    else None
  }

  // ---- A table, as a multiset, means a map. ----

  ghost predicate EntryMeans(r: Replacement, sdFiles: seq<CString>, m: map<CString, CString>) {
    && r.hash == Hash(r.disc) && IsLower(r.disc)
    && r.entrynum < |sdFiles|
    && r.disc in m && m[r.disc] == sdFiles[r.entrynum]
  }

  ghost predicate AllMean(table: multiset<Replacement>, sdFiles: seq<CString>, m: map<CString, CString>) {
    forall r :: r in table ==> EntryMeans(r, sdFiles, m)
  }

  ghost predicate KeysUnique(table: multiset<Replacement>) {
    && (forall r :: r in table ==> table[r] == 1)
    && (forall r, s :: r in table && s in table && r.disc == s.disc ==> r == s)
  }

  ghost predicate HasKey(table: multiset<Replacement>, key: CString) {
    exists r :: r in table && r.disc == key
  }

  /** No key twice, every entry good, every key of the map present. */
  ghost predicate Means(table: multiset<Replacement>, sdFiles: seq<CString>, m: map<CString, CString>) {
    && AllMean(table, sdFiles, m)
    && KeysUnique(table)
    && (forall k :: k in m ==> HasKey(table, k))
  }

  ghost predicate Distinct(paths: seq<CString>) {
    forall i, j :: 0 <= i < j < |paths| ==> paths[i] != paths[j]
  }

  ghost predicate Refines(t: Tables, p: PlainIndex) {
    && Distinct(t.sdFiles)
    && (forall path :: path in t.sdFiles <==> path in p.known)
    && Means(multiset(t.full), t.sdFiles, p.full)
    && Means(multiset(t.byName), t.sdFiles, p.byName)
  }

  /** A longer list of SD files changes no meaning: entry numbers stay valid and keep their path. */
  lemma MeansAfterAppend(table: multiset<Replacement>, sdFiles: seq<CString>, path: CString, m: map<CString, CString>)
    requires Means(table, sdFiles, m)
    ensures Means(table, sdFiles + [path], m)
  {
    forall r | r in table
      ensures EntryMeans(r, sdFiles + [path], m)
    {
      assert EntryMeans(r, sdFiles, m);
    }
  }

  /** The removal takes out exactly the entries with the new key. */
  ghost predicate Purged(before: multiset<Replacement>, kept: multiset<Replacement>, key: CString) {
    && (forall r :: r in kept ==> r in before && r.disc != key && kept[r] == 1)
    && (forall r :: r in before && r.disc != key ==> r in kept)
  }

  lemma OneRemoved(table: seq<Replacement>, i: nat, sdFiles: seq<CString>, m: map<CString, CString>, key: CString)
    requires Means(multiset(table), sdFiles, m) && i < |table| && table[i].disc == key
    ensures Purged(multiset(table), multiset(SwapRemoved(table, i)), key)
  {
    SwapRemovedMultiset(table, i);
    assert table[i] in multiset(table);
  }

  lemma RemovedPurges(table: seq<Replacement>, sdFiles: seq<CString>, m: map<CString, CString>, entered: Replacement)
    requires Means(multiset(table), sdFiles, m)
    requires entered.hash == Hash(entered.disc)
    ensures Purged(multiset(table), multiset(Removed(table, entered)), entered.disc)
  {
    var at := FirstKey(table, entered.hash, entered.disc);
    assert forall r :: r in multiset(table) ==> EntryMeans(r, sdFiles, m);
    if at.Some? {
      OneRemoved(table, at.value, sdFiles, m, entered.disc);
    } else {
      forall r | r in multiset(table)
        ensures r.disc != entered.disc
      {
        assert EntryMeans(r, sdFiles, m);
        assert r in table;
      }
    }
  }

  lemma AllMeanAfterInsert(before: multiset<Replacement>, kept: multiset<Replacement>, sdFiles: seq<CString>,
                           m: map<CString, CString>, entered: Replacement)
    requires AllMean(before, sdFiles, m) && Purged(before, kept, entered.disc)
    requires entered.hash == Hash(entered.disc) && IsLower(entered.disc) && entered.entrynum < |sdFiles|
    ensures AllMean(kept + multiset{entered}, sdFiles, m[entered.disc := sdFiles[entered.entrynum]])
  {
    forall r | r in kept + multiset{entered}
      ensures EntryMeans(r, sdFiles, m[entered.disc := sdFiles[entered.entrynum]])
    {
      if r != entered {
        assert r in kept && r in before;
        assert EntryMeans(r, sdFiles, m);
      }
    }
  }

  lemma KeysUniqueAfterInsert(before: multiset<Replacement>, kept: multiset<Replacement>, entered: Replacement)
    requires KeysUnique(before) && Purged(before, kept, entered.disc)
    ensures KeysUnique(kept + multiset{entered})
  {
    var after := kept + multiset{entered};
    assert entered !in kept;
    assert forall r :: r in after ==>
             after[r] == 1 && (r == entered || (r in kept && r in before && r.disc != entered.disc));
  }

  lemma HasKeyAfterInsert(before: multiset<Replacement>, kept: multiset<Replacement>, entered: Replacement,
                          key: CString)
    requires Purged(before, kept, entered.disc)
    requires key == entered.disc || HasKey(before, key)
    ensures HasKey(kept + multiset{entered}, key)
  {
    var after := kept + multiset{entered};
    if key == entered.disc {
      assert entered in after;
    } else {
      var r :| r in before && r.disc == key;
      assert r in kept;
      assert r in after;
    }
  }

  /** Swap-remove then push is an update of the map. */
  lemma MeansAfterOverride(table: seq<Replacement>, sdFiles: seq<CString>, m: map<CString, CString>,
                           entered: Replacement)
    requires Means(multiset(table), sdFiles, m)
    requires entered.hash == Hash(entered.disc) && IsLower(entered.disc) && entered.entrynum < |sdFiles|
    ensures Means(multiset(Removed(table, entered) + [entered]), sdFiles, m[entered.disc := sdFiles[entered.entrynum]])
  {
    RemovedPurges(table, sdFiles, m, entered);
    var before, kept := multiset(table), multiset(Removed(table, entered));
    AllMeanAfterInsert(before, kept, sdFiles, m, entered);
    KeysUniqueAfterInsert(before, kept, entered);
    forall k | k in m[entered.disc := sdFiles[entered.entrynum]]
      ensures HasKey(kept + multiset{entered}, k)
    {
      HasKeyAfterInsert(before, kept, entered, k);
    }
    assert multiset(Removed(table, entered) + [entered]) == kept + multiset{entered};
  }

  lemma KeyOfIsLower(disc: CString)
    requires IsLower(disc)
    ensures IsLower(KeyOf(disc))
  {
    var key := KeyOf(disc);
    var skipped := |disc| - |key|;
    forall i | 0 <= i < |key|
      ensures Lower(key)[i] == key[i]
    {
      assert Lower(disc)[i + skipped] == disc[i + skipped] == key[i];
    }
  }

  lemma EnteredRefines(t: Tables, p: PlainIndex, disc: CString, entrynum: nat)
    requires Refines(t, p) && IsLower(disc) && entrynum < |t.sdFiles|
    ensures Refines(Entered(t, disc, entrynum),
                    if IsFullPath(disc) then p.(full := p.full[disc[1..] := t.sdFiles[entrynum]])
                    else p.(byName := p.byName[disc := t.sdFiles[entrynum]]))
    ensures Entered(t, disc, entrynum).sdFiles == t.sdFiles
  {
    var entered := Replacement(KeyOf(disc), Hash(KeyOf(disc)), entrynum);
    KeyOfIsLower(disc);
    if IsFullPath(disc) {
      MeansAfterOverride(t.full, t.sdFiles, p.full, entered);
    } else {
      MeansAfterOverride(t.byName, t.sdFiles, p.byName, entered);
    }
  }

  lemma ListedDistinct(paths: seq<CString>, known: set<CString>, path: CString)
    requires Distinct(paths) && path !in paths && forall x :: x in paths <==> x in known
    ensures Distinct(paths + [path]) && forall x :: x in paths + [path] <==> x in known + {path}
  {
  }

  lemma ListedRefines(t: Tables, p: PlainIndex, external: CString)
    requires Refines(t, p) && external !in t.sdFiles
    ensures Refines(t.(sdFiles := t.sdFiles + [external]), p.(known := p.known + {external}))
  {
    ListedDistinct(t.sdFiles, p.known, external);
    MeansAfterAppend(multiset(t.full), t.sdFiles, external, p.full);
    MeansAfterAppend(multiset(t.byName), t.sdFiles, external, p.byName);
  }

  /** A registration that changes nothing. */
  predicate Skipped(t: Tables, onCard: set<CString>, reg: Registration) {
    || reg.disc == "main.dol" || IsAppleDouble(reg.disc)
    || (FirstPath(t.sdFiles, reg.external).None? && reg.checkExists && reg.external !in onCard)
  }

  lemma SkippedRefines(t: Tables, p: PlainIndex, onCard: set<CString>, reg: Registration)
    requires Refines(t, p) && Skipped(t, onCard, reg)
    ensures Registered(t, onCard, reg).sdFiles == t.sdFiles
            && Refines(Registered(t, onCard, reg), PlainRegistered(p, onCard, reg))
  {
  }

  lemma KnownRefines(t: Tables, p: PlainIndex, onCard: set<CString>, reg: Registration, i: nat)
    requires Refines(t, p) && IsLower(reg.disc) && !Skipped(t, onCard, reg)
             && FirstPath(t.sdFiles, reg.external) == Some(i)
    ensures Registered(t, onCard, reg).sdFiles == t.sdFiles
            && Refines(Registered(t, onCard, reg), PlainRegistered(p, onCard, reg))
  {
    assert p.known + {reg.external} == p.known;
    EnteredRefines(t, p, reg.disc, i);
  }

  lemma UnknownRefines(t: Tables, p: PlainIndex, onCard: set<CString>, reg: Registration)
    requires Refines(t, p) && IsLower(reg.disc) && !Skipped(t, onCard, reg) && FirstPath(t.sdFiles, reg.external).None?
    ensures Registered(t, onCard, reg).sdFiles == t.sdFiles + [reg.external]
    ensures Refines(Registered(t, onCard, reg), PlainRegistered(p, onCard, reg))
  {
    NewPathRefines(t, p, reg.disc, reg.external);
  }

  /** One registration keeps the tables equal to the plain maps. */
  lemma RegisteredRefines(t: Tables, p: PlainIndex, onCard: set<CString>, reg: Registration)
    requires Refines(t, p) && IsLower(reg.disc)
    ensures Refines(Registered(t, onCard, reg), PlainRegistered(p, onCard, reg))
    ensures t.sdFiles <= Registered(t, onCard, reg).sdFiles
  {
    var known := FirstPath(t.sdFiles, reg.external);
    if Skipped(t, onCard, reg) {
      SkippedRefines(t, p, onCard, reg);
    } else if known.Some? {
      KnownRefines(t, p, onCard, reg, known.value);
    } else {
      UnknownRefines(t, p, onCard, reg);
    }
  }

  lemma NewPathRefines(t: Tables, p: PlainIndex, disc: CString, external: CString)
    requires Refines(t, p) && IsLower(disc) && external !in t.sdFiles
    ensures var t', p' := t.(sdFiles := t.sdFiles + [external]), p.(known := p.known + {external});
            && Entered(t', disc, |t.sdFiles|).sdFiles == t'.sdFiles
            && Refines(Entered(t', disc, |t.sdFiles|),
                       if IsFullPath(disc) then p'.(full := p'.full[disc[1..] := external])
                       else p'.(byName := p'.byName[disc := external]))
  {
    ListedRefines(t, p, external);
    EnteredRefines(t.(sdFiles := t.sdFiles + [external]), p.(known := p.known + {external}), disc, |t.sdFiles|);
  }

  lemma {:induction false} RegisteredAllRefines(onCard: set<CString>, regs: seq<Registration>)
    ensures Refines(RegisteredAll(onCard, regs), PlainRegisteredAll(onCard, regs))
  {
    if regs != [] {
      var last := Normalized(regs[|regs| - 1]);
      RegisteredAllRefines(onCard, regs[..|regs| - 1]);
      LowerIdempotent(regs[|regs| - 1].disc);
      RegisteredRefines(RegisteredAll(onCard, regs[..|regs| - 1]), PlainRegisteredAll(onCard, regs[..|regs| - 1]),
                        onCard, last);
    }
  }

  /** Later registrations never move or rename an SD file: an entry number once given stays good. */
  lemma {:induction false} EntryNumbersStable(onCard: set<CString>, regs: seq<Registration>, n: nat)
    requires n <= |regs|
    ensures RegisteredAll(onCard, regs[..n]).sdFiles <= RegisteredAll(onCard, regs).sdFiles
    decreases |regs|
  {
    if n == |regs| {
      assert regs[..n] == regs;
    } else {
      var front := regs[..|regs| - 1];
      EntryNumbersStable(onCard, front, n);
      assert front[..n] == regs[..n];
      RegisteredAllRefines(onCard, front);
      LowerIdempotent(regs[|regs| - 1].disc);
      RegisteredRefines(RegisteredAll(onCard, front), PlainRegisteredAll(onCard, front), onCard,
                        Normalized(regs[|regs| - 1]));
    }
  }

  /** Searching any arrangement of a table is looking the lower-cased text up in the map it means. */
  lemma SearchIsMapLookup(table: seq<Replacement>, sdFiles: seq<CString>, m: map<CString, CString>, name: CString)
    requires Means(multiset(table), sdFiles, m)
    ensures var r := FirstAnswer(table, Hash(Lower(name)), name);
            if Lower(name) in m then r.Some? && r.value < |sdFiles| && sdFiles[r.value] == m[Lower(name)] else r.None?
  {
    var key := Lower(name);
    var r := FirstAnswer(table, Hash(key), name);
    assert forall x :: x in table ==> x in multiset(table) && EntryMeans(x, sdFiles, m);
    if key in m {
      var x :| x in multiset(table) && x.disc == key;
      assert x in table && EntryMeans(x, sdFiles, m) && Answers(x, Hash(key), name);
    }
  }

  /**
   * The index the launcher packs answers every query of the game exactly as the plain last-registration-wins
   * maps do: for every list of registrations, every state of the SD card, every query, every hash collision,
   * and every way `qsort` may order equal hashes.
   */
  lemma LookupAgreesWithPlainMaps(onCard: set<CString>, regs: seq<Registration>,
                                  full: seq<Replacement>, byName: seq<Replacement>, query: CString)
    requires multiset(full) == multiset(RegisteredAll(onCard, regs).full)
    requires multiset(byName) == multiset(RegisteredAll(onCard, regs).byName)
    ensures var sdFiles := RegisteredAll(onCard, regs).sdFiles;
            var found := Resolved(RiivoDisc(sdFiles, byName, full), query);
            var expected := PlainResolved(PlainRegisteredAll(onCard, regs), query);
            if found.Some? then found.value < |sdFiles| && expected == Some(sdFiles[found.value]) else expected.None?
  {
    var t, p := RegisteredAll(onCard, regs), PlainRegisteredAll(onCard, regs);
    RegisteredAllRefines(onCard, regs);
    var filename := Stripped(query);
    LastSegmentOfLower(filename);
    SearchIsMapLookup(byName, t.sdFiles, p.byName, LastSegment(filename));
    SearchIsMapLookup(full, t.sdFiles, p.full, filename);
  }
}
