// What a successful update run leaves in each file (source/update/update.c, lines 381-724).

/** An independent account, path by path, of the card after a run: no steps, only what the server offers. */
module UpdateEffect {
  import opened CStrings
  import opened Versions
  import opened VersionsFile
  import opened Update
  import opened UpdateConvergence

  /** The content of a file, None if there is no such file. */
  function ContentOf(files: Files, path: string): Option<string> {
    if path in files then Some(files[path]) else None
  }

  /** The last file entry of an archive with this name. */
  function LastContent(entries: seq<ZipEntry>, path: string): Option<string> {
    if entries == [] then None
    else
      var e := entries[|entries| - 1];
      if Canonical(e.name) == path && !IsDirectory(e.name) then Some(e.content)
      else LastContent(entries[..|entries| - 1], path)
  }

  /** Some deletion for this version names the path. */
  predicate Deletes(deleted: seq<Entry>, version: Version, path: string) {
    exists i :: 0 <= i < |deleted| && deleted[i].version == version && Canonical(deleted[i].text) == path
  }

  /**
   * One update: its version is written, its deletions and the archive itself are gone, its files are in place, the
   * rest stays.
   */
  function Updated(zips: Zips, update: Entry, deleted: seq<Entry>, path: string,
                   before: Option<string>): Option<string> {
    if path == VERSION_FILE then Some(Printed(update.version))
    else if Deletes(deleted, update.version, path) || path == TEMP_ZIP then None
    else if update.text in zips && LastContent(zips[update.text], path).Some? then LastContent(zips[update.text], path)
    else before
  }

  function AllUpdated(zips: Zips, pending: seq<Entry>, deleted: seq<Entry>, path: string,
                      before: Option<string>): Option<string>
    decreases pending
  {
    if pending == [] then before
    else AllUpdated(zips, pending[1..], deleted, path, Updated(zips, pending[0], deleted, path, before))
  }

  // ---- One update ----

  predicate AllSafe(entries: seq<ZipEntry>) {
    forall i :: 0 <= i < |entries| ==> PathIsSafe(entries[i].name)
  }

  predicate Installable(zips: Zips, update: Entry) {
    update.text in zips && AllSafe(zips[update.text]) && |Printed(update.version)| < 32
  }

  lemma EntryEffect(files: Files, e: ZipEntry, path: string)
    requires PathIsSafe(e.name)
    ensures ContentOf(AllApplied(files, EntrySteps(e)), path)
              == if Canonical(e.name) == path && !IsDirectory(e.name) then Some(e.content) else ContentOf(files, path)
  {
    if IsDirectory(e.name) {
      assert [Check][1..] == [];
    } else {
      var write := Write(Canonical(e.name), e.content);
      assert [Check, write][1..] == [write] && [write][1..] == [];
      assert AllApplied(files, [Check, write]) == AllApplied(files, [write]) == Applied(files, write);
    }
  }

  lemma {:induction false} EntriesEffect(files: Files, entries: seq<ZipEntry>, path: string)
    requires AllSafe(entries)
    ensures ContentOf(AllApplied(files, AllEntrySteps(entries)), path)
              == if LastContent(entries, path).Some? then LastContent(entries, path) else ContentOf(files, path)
  {
    if entries != [] {
      var n := |entries| - 1;
      EntriesEffect(files, entries[..n], path);
      AppliedConcat(files, AllEntrySteps(entries[..n]), EntrySteps(entries[n]));
      EntryEffect(AllApplied(files, AllEntrySteps(entries[..n])), entries[n], path);
    }
  }

  lemma OneStep(files: Files, step: Step)
    ensures AllApplied(files, [step]) == Applied(files, step)
  {
    assert [step][1..] == [];
  }

  lemma DeletesSplit(deleted: seq<Entry>, version: Version, path: string)
    requires deleted != []
    ensures var n := |deleted| - 1;
            Deletes(deleted, version, path) <==>
              Deletes(deleted[..n], version, path)
              || (deleted[n].version == version && Canonical(deleted[n].text) == path)
  {
    var n := |deleted| - 1;
    assert forall i :: 0 <= i < n ==> deleted[..n][i] == deleted[i];
    if deleted[n].version == version && Canonical(deleted[n].text) == path {
      assert Deletes(deleted, version, path);
    }
    if Deletes(deleted[..n], version, path) {
      var i :| 0 <= i < n && deleted[..n][i].version == version && Canonical(deleted[..n][i].text) == path;
      assert deleted[i].version == version && Canonical(deleted[i].text) == path;
    }
  }

  lemma {:induction false} DeletionsEffect(files: Files, deleted: seq<Entry>, version: Version, path: string)
    ensures ContentOf(AllApplied(files, DeleteSteps(deleted, version)), path)
              == if Deletes(deleted, version, path) then None else ContentOf(files, path)
  {
    if deleted != [] {
      var n := |deleted| - 1;
      var front := DeleteSteps(deleted[..n], version);
      DeletionsEffect(files, deleted[..n], version, path);
      DeletesSplit(deleted, version, path);
      if Equals(deleted[n].version, version) {
        var last := Remove(Canonical(deleted[n].text));
        AppliedConcat(files, front, [last]);
        OneStep(AllApplied(files, front), last);
      } else {
        assert front + [] == front;
      }
    }
  }

  lemma DownloadEffect(files: Files, url: string, path: string)
    ensures path != TEMP_ZIP ==> ContentOf(AllApplied(files, DownloadSteps(url)), path) == ContentOf(files, path)
  {
    var write := Write(TEMP_ZIP, url);
    assert DownloadSteps(url) == [Check] + ([write] + [Check]);
    AppliedConcat(files, [Check], [write] + [Check]);
    OneStep(files, Check);
    AppliedConcat(files, [write], [Check]);
    OneStep(files, write);
    OneStep(Applied(files, write), Check);
  }

  lemma FinishEffect(files: Files, update: Entry, deleted: seq<Entry>, path: string)
    requires |Printed(update.version)| < 32
    ensures ContentOf(AllApplied(files, DeleteSteps(deleted, update.version) + [VersionStep(update.version)]), path)
              == if path == VERSION_FILE then Some(Printed(update.version))
                 else if Deletes(deleted, update.version, path) then None
                 else ContentOf(files, path)
  {
    var deletions := DeleteSteps(deleted, update.version);
    AppliedConcat(files, deletions, [VersionStep(update.version)]);
    OneStep(AllApplied(files, deletions), VersionStep(update.version));
    DeletionsEffect(files, deleted, update.version, path);
  }

  lemma FourParts(files: Files, a: seq<Step>, b: seq<Step>, step: Step, c: seq<Step>)
    ensures AllApplied(files, a + b + [step] + c) == AllApplied(Applied(AllApplied(AllApplied(files, a), b), step), c)
  {
    AppliedConcat(files, a, b);
    AppliedConcat(files, a + b, [step]);
    AppliedConcat(files, a + b + [step], c);
    OneStep(AllApplied(files, a + b), step);
  }

  /** Performing the steps of one update has exactly the update's effect on every path. */
  lemma UpdateStepsEffect(zips: Zips, update: Entry, deleted: seq<Entry>, files: Files, path: string)
    requires Installable(zips, update)
    ensures ContentOf(AllApplied(files, UpdateSteps(zips, update, deleted)), path)
              == Updated(zips, update, deleted, path, ContentOf(files, path))
  {
    var download, entries := DownloadSteps(update.text), AllEntrySteps(zips[update.text]);
    var finish := DeleteSteps(deleted, update.version) + [VersionStep(update.version)];
    FinishLast(zips, update, deleted);
    FourParts(files, download, entries, Remove(TEMP_ZIP), finish);
    var f1 := AllApplied(files, download);
    var f2 := AllApplied(f1, entries);
    DownloadEffect(files, update.text, path);
    EntriesEffect(f1, zips[update.text], path);
    FinishEffect(f2 - {TEMP_ZIP}, update, deleted, path);
  }

  lemma FinishLast(zips: Zips, update: Entry, deleted: seq<Entry>)
    requires update.text in zips
    ensures UpdateSteps(zips, update, deleted)
              == DownloadSteps(update.text) + AllEntrySteps(zips[update.text]) + [Remove(TEMP_ZIP)]
                 + (DeleteSteps(deleted, update.version) + [VersionStep(update.version)])
  {
  }

  // ---- When an update is rejected ----

  lemma {:induction false} EntriesRejected(entries: seq<ZipEntry>)
    ensures NoneRejected(AllEntrySteps(entries), |AllEntrySteps(entries)|) <==> AllSafe(entries)
  {
    if entries != [] {
      var n := |entries| - 1;
      EntriesRejected(entries[..n]);
      RejectedConcat(AllEntrySteps(entries[..n]), EntrySteps(entries[n]));
      assert entries == entries[..n] + [entries[n]];
      var steps := EntrySteps(entries[n]);
      assert !PathIsSafe(entries[n].name) ==> steps[0].Reject?;
    }
  }

  lemma RejectedConcat(a: seq<Step>, b: seq<Step>)
    ensures NoneRejected(a + b, |a + b|) <==> NoneRejected(a, |a|) && NoneRejected(b, |b|)
  {
    assert forall i :: 0 <= i < |a| ==> (a + b)[i] == a[i];
    assert forall i :: 0 <= i < |b| ==> b[i] == (a + b)[i + |a|];
  }

  lemma {:induction false} DeletionsNotRejected(deleted: seq<Entry>, version: Version)
    ensures NoneRejected(DeleteSteps(deleted, version), |DeleteSteps(deleted, version)|)
  {
    if deleted != [] {
      DeletionsNotRejected(deleted[..|deleted| - 1], version);
    }
  }

  /**
   * An update is rejected if and only if its archive is missing, holds an unsafe path, or its version text is too
   * long.
   */
  lemma RejectedExactlyWhen(zips: Zips, update: Entry, deleted: seq<Entry>)
    ensures NoneRejected(UpdateSteps(zips, update, deleted), |UpdateSteps(zips, update, deleted)|) <==>
              Installable(zips, update)
  {
    if update.text in zips {
      var download, entries := DownloadSteps(update.text), AllEntrySteps(zips[update.text]);
      var deletions, version := DeleteSteps(deleted, update.version), [VersionStep(update.version)];
      EntriesRejected(zips[update.text]);
      DeletionsNotRejected(deleted, update.version);
      RejectedConcat(download, entries);
      RejectedConcat(download + entries, [Remove(TEMP_ZIP)]);
      RejectedConcat(download + entries + [Remove(TEMP_ZIP)], deletions);
      RejectedConcat(download + entries + [Remove(TEMP_ZIP)] + deletions, version);
      assert NoneRejected(version, 1) <==> !version[0].Reject?;
    } else {
      assert UpdateSteps(zips, update, deleted)[0].Reject?;
    }
  }

  // ---- A successful run ----

  lemma {:induction false} SuccessAppliesAll(files: Files, steps: seq<Step>, n: nat, junk: Option<string>)
    requires Performed(files, steps, n, junk).1
    ensures Performed(files, steps, n, junk).0 == AllApplied(files, steps) && NoneRejected(steps, |steps|)
    decreases steps
  {
    if steps != [] {
      SuccessAppliesAll(Applied(files, steps[0]), steps[1..], n - 1, junk);
      assert forall i :: 0 < i < |steps| ==> steps[i] == steps[1..][i - 1];
    }
  }

  lemma {:induction false} StepsOfEffect(zips: Zips, pending: seq<Entry>, deleted: seq<Entry>, files: Files,
                                         path: string)
    requires NoneRejected(StepsOf(zips, pending, deleted), |StepsOf(zips, pending, deleted)|)
    ensures ContentOf(AllApplied(files, StepsOf(zips, pending, deleted)), path)
              == AllUpdated(zips, pending, deleted, path, ContentOf(files, path))
    decreases pending
  {
    if pending != [] {
      var first, rest := UpdateSteps(zips, pending[0], deleted), StepsOf(zips, pending[1..], deleted);
      RejectedConcat(first, rest);
      RejectedExactlyWhen(zips, pending[0], deleted);
      AppliedConcat(files, first, rest);
      UpdateStepsEffect(zips, pending[0], deleted, files, path);
      StepsOfEffect(zips, pending[1..], deleted, AllApplied(files, first), path);
    }
  }

  /**
   * After a successful run every file is what the newer updates, one after the other, make of it: for every
   * card, every offer of the server and every path.
   */
  lemma SuccessfulRunContents(server: Server, updates: seq<Entry>, deletions: seq<Entry>, files: Files,
                              current: Version,
                              n: nat, junk: Option<string>, path: string)
    requires Offers(server, updates, deletions) && Installed(files) == Some(current) && current.major >= 0
    ensures var (files', ok) := RunOnce(server, files, n, junk);
            ok ==> ContentOf(files', path)
                     == AllUpdated(server.zips, NewerOf(updates, current), deletions, path, ContentOf(files, path))
  {
    RunPerforms(server, updates, deletions, files, current, n, junk);
    var pending := NewerOf(updates, current);
    if RunOnce(server, files, n, junk).1 {
      SuccessAppliesAll(files, StepsOf(server.zips, pending, deletions), n, junk);
      StepsOfEffect(server.zips, pending, deletions, files, path);
    }
  }
}
