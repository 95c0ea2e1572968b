// source/update/update.c: applying updates, being interrupted anywhere, and starting again.

/**
 * The SD card as a map from paths to contents, an update run as a sequence of I/O steps any of which may be the
 * last to succeed, and convergence of interrupted runs.
 */
module Update {
  import opened CStrings
  import opened Versions
  import opened VersionsFile

  /** By canonical path. */
  type Files = map<string, string>

  /** `RetroRewind6/version.txt` */
  const VERSION_FILE := "retrorewind6/version.txt"
  const TEMP_ZIP := "rr.update.zip"

  datatype ZipEntry = ZipEntry(name: string, content: string)

  /** What the server holds: both lists, and the archive behind each URL. */
  datatype Server = Server(versions: string, deleted: string, zips: map<string, seq<ZipEntry>>)

  /**
   * One I/O step. `Check` stands for the queries made before the next change (sizes, free space, opening the
   * archive): it changes nothing but may fail. `Reject` always fails.
   */
  datatype Step =
    | Check
    | Write(path: string, content: string)
    | Remove(path: string)
    | WriteVersion(text: string)
    | Reject

  function Applied(files: Files, step: Step): Files {
    match step
    case Write(path, content) => files[path := content]
    case Remove(path) => files - {path}
    case WriteVersion(text) => files[VERSION_FILE := text]
    case _ => files
  }

  /** What a failing step may leave behind: a file write may leave any content; the version write is atomic. */
  function Torn(files: Files, step: Step, junk: Option<string>): Files {
    if step.Write? && junk.Some? then files[step.path := junk.value] else files
  }

  /** Performs the steps; the first `n` succeed unless rejected. */
  function Performed(files: Files, steps: seq<Step>, n: nat, junk: Option<string>): (Files, bool)
    decreases steps
  {
    if steps == [] then (files, true)
    else if n == 0 || steps[0].Reject? then (Torn(files, steps[0], junk), false)
    else Performed(Applied(files, steps[0]), steps[1..], n - 1, junk)
  }

  // ---- The steps of one update ----

  /** `rr_update_zip_entry_path_is_safe` */
  predicate PathIsSafe(name: string) {
    name != [] && name[0] != '/' && name[0] != '\\' && !HasDotDot(name)
  }

  predicate HasDotDot(name: string) {
    exists i :: 0 <= i < |name| - 1 && name[i] == '.' && name[i + 1] == '.'
  }

  predicate IsDirectory(name: string) {
    name != [] && name[|name| - 1] == '/'
  }

  /**
   * FAT ignores case, and a path from the root names the same file as one from the working directory, which is the
   * root.
   */
  function Canonical(path: string): string {
    var relative := if path != [] && path[0] == '/' then path[1..] else path;
    seq(|relative|, i requires 0 <= i < |relative| => ToLower(relative[i]))
  }

  function EntrySteps(e: ZipEntry): seq<Step> {
    if !PathIsSafe(e.name) then [Reject]
    else if IsDirectory(e.name) then [Check]
    else [Check, Write(Canonical(e.name), e.content)]
  }

  function AllEntrySteps(entries: seq<ZipEntry>): seq<Step> {
    if entries == [] then [] else AllEntrySteps(entries[..|entries| - 1]) + EntrySteps(entries[|entries| - 1])
  }

  function DeleteSteps(deleted: seq<Entry>, version: Version): seq<Step> {
    if deleted == [] then []
    else
      var last := deleted[|deleted| - 1];
      DeleteSteps(deleted[..|deleted| - 1], version) +
        (if Equals(last.version, version) then [Remove(Canonical(last.text))] else [])
  }

  /** The buffer for the version text has 32 bytes; a longer text stops the program. */
  function VersionStep(version: Version): Step {
    if |Printed(version)| < 32 then WriteVersion(Printed(version)) else Reject
  }

  function DownloadSteps(url: string): seq<Step> {
    [Check, Write(TEMP_ZIP, url), Check]
  }

  function UpdateSteps(zips: map<string, seq<ZipEntry>>, update: Entry, deleted: seq<Entry>): seq<Step> {
    if update.text !in zips then [Reject]
    else
      DownloadSteps(update.text) + AllEntrySteps(zips[update.text]) + [Remove(TEMP_ZIP)] +
      DeleteSteps(deleted, update.version) + [VersionStep(update.version)]
  }

  function StepsOf(zips: map<string, seq<ZipEntry>>, updates: seq<Entry>, deleted: seq<Entry>): seq<Step> {
    if updates == [] then [] else UpdateSteps(zips, updates[0], deleted) + StepsOf(zips, updates[1..], deleted)
  }

  // ---- One run ----

  function Installed(files: Files): Option<Version> {
    if VERSION_FILE in files then Parsed(files[VERSION_FILE]) else None
  }

  function Selected(text: string, current: Version): Option<seq<Entry>> {
    if |Split(text, '\n')| > SPLIT_LIMIT then None else Newer(Split(text, '\n'), current)
  }

  /** A run whose user agrees to every prompt: the card afterwards, and whether it succeeded. */
  function RunOnce(server: Server, files: Files, n: nat, junk: Option<string>): (Files, bool)
    requires ListOk(server.versions) && ListOk(server.deleted)
  {
    var current := Installed(files);
    if current.None? || current.value.major < 0 then (files, false)
    else
      var pending := Selected(server.versions, current.value);
      if pending.None? then (files, false)
      else if pending.value == [] then (files, true)
      else
        var deleted := Selected(server.deleted, current.value);
        if deleted.None? then (files, false)
        else Performed(files, StepsOf(server.zips, pending.value, deleted.value), n, junk)
  }

  /** The user's answers: whether to update, and, should the download be large, whether to go on. */
  datatype Answers = Answers(update: bool, large: bool, continues: bool)

  /** The run comes to a prompt that the user declines. */
  predicate Declined(server: Server, files: Files, answers: Answers)
    requires ListOk(server.versions) && ListOk(server.deleted)
  {
    var current := Installed(files);
    && current.Some? && current.value.major >= 0
    && var pending := Selected(server.versions, current.value);
       && pending.Some? && pending.value != []
       && (!answers.update || (Selected(server.deleted, current.value).Some? && answers.large && !answers.continues))
  }

  // ---- The run as the source executes it ----

  lemma {:induction false} PerformedConcat(files: Files, a: seq<Step>, b: seq<Step>, n: nat, junk: Option<string>)
    ensures Performed(files, a, n, junk).1 ==> |a| <= n
    ensures Performed(files, a + b, n, junk)
              == if Performed(files, a, n, junk).1 then Performed(Performed(files, a, n, junk).0, b, n - |a|, junk)
                 else Performed(files, a, n, junk)
    decreases a
  {
    if a == [] {
      assert a + b == b;
    } else if n > 0 && !a[0].Reject? {
      assert (a + b)[1..] == a[1..] + b;
      PerformedConcat(Applied(files, a[0]), a[1..], b, n - 1, junk);
    }
  }

  /** Performing `steps` turns one card into another, succeeds or not, and if so leaves this much budget. */
  predicate Outcome(files: Files, n: nat, steps: seq<Step>, junk: Option<string>, files': Files, n': nat, ok: bool) {
    Performed(files, steps, n, junk) == (files', ok) && (ok ==> |steps| <= n && n' == n - |steps|)
  }

  lemma Chained(f0: Files, n0: nat, a: seq<Step>, junk: Option<string>, f1: Files, n1: nat,
                b: seq<Step>, f2: Files, n2: nat, ok: bool)
    requires Outcome(f0, n0, a, junk, f1, n1, true) && Outcome(f1, n1, b, junk, f2, n2, ok)
    ensures Outcome(f0, n0, a + b, junk, f2, n2, ok)
  {
    PerformedConcat(f0, a, b, n0, junk);
  }

  lemma CutShort(f0: Files, n0: nat, a: seq<Step>, junk: Option<string>, f1: Files, n1: nat, b: seq<Step>)
    requires Outcome(f0, n0, a, junk, f1, n1, false)
    ensures Outcome(f0, n0, a + b, junk, f1, n1, false)
  {
    PerformedConcat(f0, a, b, n0, junk);
  }

  class Updater {
    var files: Files
    /** How many more I/O steps will succeed. */
    var budget: nat
    const junk: Option<string>

    constructor (files: Files, budget: nat, junk: Option<string>)
      ensures this.files == files && this.budget == budget && this.junk == junk
    {
      this.files, this.budget, this.junk := files, budget, junk;
    }

    method Do(step: Step) returns (ok: bool)
      modifies this
      ensures Outcome(old(files), old(budget), [step], junk, files, budget, ok)
    {
      assert [step][1..] == [];
      if budget == 0 || step.Reject? {
        files := Torn(files, step, junk);
        return false;
      }
      files := Applied(files, step);
      budget := budget - 1;
      return true;
    }

    /** Does one more step behind `done`, which succeeded from the card and budget given. */
    method Then(ghost f0: Files, ghost n0: nat, ghost done: seq<Step>, step: Step) returns (ok: bool)
      requires Outcome(f0, n0, done, junk, files, budget, true)
      modifies this
      ensures Outcome(f0, n0, done + [step], junk, files, budget, ok)
    {
      ghost var f1, n1 := files, budget;
      ok := Do(step);
      Chained(f0, n0, done, junk, f1, n1, [step], files, budget, ok);
    }

    /** One round of the loop of `rrc_update_extract_zip_archive`. */
    method ExtractEntry(e: ZipEntry) returns (ok: bool)
      modifies this
      ensures Outcome(old(files), old(budget), EntrySteps(e), junk, files, budget, ok)
    {
      if !PathIsSafe(e.name) {
        ok := Do(Reject);
        return;
      }
      ok := Do(Check);
      if IsDirectory(e.name) {
        return;
      }
      assert EntrySteps(e) == [Check] + [Write(Canonical(e.name), e.content)];
      if !ok {
        CutShort(old(files), old(budget), [Check], junk, files, budget, [Write(Canonical(e.name), e.content)]);
        return;
      }
      ok := Then(old(files), old(budget), [Check], Write(Canonical(e.name), e.content));
    }

    method ExtractAll(entries: seq<ZipEntry>) returns (ok: bool)
      modifies this
      ensures Outcome(old(files), old(budget), AllEntrySteps(entries), junk, files, budget, ok)
    {
      var i := 0;
      while i < |entries|
        invariant 0 <= i <= |entries|
        invariant Outcome(old(files), old(budget), AllEntrySteps(entries[..i]), junk, files, budget, true)
      {
        ghost var f1, n1 := files, budget;
        ok := ExtractEntry(entries[i]);
        assert entries[..i + 1][..i] == entries[..i];
        Chained(old(files), old(budget), AllEntrySteps(entries[..i]), junk, f1, n1, EntrySteps(entries[i]),
                files, budget, ok);
        if !ok {
          EntriesFrom(entries, i + 1);
          CutShort(old(files), old(budget), AllEntrySteps(entries[..i + 1]), junk, files, budget,
                   EntryStepsFrom(entries, i + 1));
          return;
        }
        i := i + 1;
      }
      assert entries[..i] == entries;
      ok := true;
    }

    /** Removes the files the list gives for this version. */
    method RemoveDeleted(deleted: seq<Entry>, version: Version) returns (ok: bool)
      modifies this
      ensures Outcome(old(files), old(budget), DeleteSteps(deleted, version), junk, files, budget, ok)
    {
      var i := 0;
      while i < |deleted|
        invariant 0 <= i <= |deleted|
        invariant Outcome(old(files), old(budget), DeleteSteps(deleted[..i], version), junk, files, budget, true)
      {
        assert deleted[..i + 1][..i] == deleted[..i] && deleted[..i + 1][i] == deleted[i];
        if Equals(deleted[i].version, version) {
          assert DeleteSteps(deleted[..i + 1], version)
              == DeleteSteps(deleted[..i], version) + [Remove(Canonical(deleted[i].text))];
          ok := Then(old(files), old(budget), DeleteSteps(deleted[..i], version), Remove(Canonical(deleted[i].text)));
          if !ok {
            DeletesFrom(deleted, version, i + 1);
            CutShort(old(files), old(budget), DeleteSteps(deleted[..i + 1], version), junk, files, budget,
                     DeleteStepsFrom(deleted, version, i + 1));
            return;
          }
        } else {
          assert DeleteSteps(deleted[..i + 1], version) == DeleteSteps(deleted[..i], version) + [];
          assert DeleteSteps(deleted[..i], version) + [] == DeleteSteps(deleted[..i], version);
        }
        i := i + 1;
      }
      assert deleted[..i] == deleted;
      ok := true;
    }

    /** Asks for the size, downloads, and checks that the file is there. */
    method Download(url: string) returns (ok: bool)
      modifies this
      ensures Outcome(old(files), old(budget), DownloadSteps(url), junk, files, budget, ok)
    {
      ghost var f0, n0 := files, budget;
      assert DownloadSteps(url) == [Check] + ([Write(TEMP_ZIP, url)] + [Check]);
      ok := Do(Check);
      if !ok {
        CutShort(f0, n0, [Check], junk, files, budget, [Write(TEMP_ZIP, url)] + [Check]);
        return;
      }
      ok := Then(f0, n0, [Check], Write(TEMP_ZIP, url));
      assert DownloadSteps(url) == [Check] + [Write(TEMP_ZIP, url)] + [Check];
      if !ok {
        CutShort(f0, n0, [Check] + [Write(TEMP_ZIP, url)], junk, files, budget, [Check]);
        return;
      }
      ok := Then(f0, n0, [Check] + [Write(TEMP_ZIP, url)], Check);
    }

    /** Installs one update: download, extract, drop the archive, remove deleted files, write the version. */
    method InstallOne(zips: map<string, seq<ZipEntry>>, update: Entry, deleted: seq<Entry>) returns (ok: bool)
      modifies this
      ensures Outcome(old(files), old(budget), UpdateSteps(zips, update, deleted), junk, files, budget, ok)
    {
      if update.text !in zips {
        ok := Do(Reject);
        return;
      }
      ghost var f0, n0 := files, budget;
      ghost var entrySteps := AllEntrySteps(zips[update.text]);
      ghost var finish := DeleteSteps(deleted, update.version) + [VersionStep(update.version)];
      ghost var fetched := DownloadSteps(update.text) + entrySteps;
      assert UpdateSteps(zips, update, deleted) == fetched + ([Remove(TEMP_ZIP)] + finish);
      ok := Fetch(zips, update.text);
      if !ok {
        CutShort(f0, n0, fetched, junk, files, budget, [Remove(TEMP_ZIP)] + finish);
        return;
      }
      assert UpdateSteps(zips, update, deleted) == fetched + [Remove(TEMP_ZIP)] + finish;
      ok := Then(f0, n0, fetched, Remove(TEMP_ZIP));
      if !ok {
        CutShort(f0, n0, fetched + [Remove(TEMP_ZIP)], junk, files, budget, finish);
        return;
      }
      ghost var f1, n1 := files, budget;
      ok := Finish(update.version, deleted);
      Chained(f0, n0, fetched + [Remove(TEMP_ZIP)], junk, f1, n1, finish, files, budget, ok);
    }

    method Fetch(zips: map<string, seq<ZipEntry>>, url: string) returns (ok: bool)
      requires url in zips
      modifies this
      ensures Outcome(old(files), old(budget), DownloadSteps(url) + AllEntrySteps(zips[url]), junk, files, budget, ok)
    {
      ghost var f0, n0 := files, budget;
      ok := Download(url);
      if !ok {
        CutShort(f0, n0, DownloadSteps(url), junk, files, budget, AllEntrySteps(zips[url]));
        return;
      }
      ghost var f1, n1 := files, budget;
      ok := ExtractAll(zips[url]);
      Chained(f0, n0, DownloadSteps(url), junk, f1, n1, AllEntrySteps(zips[url]), files, budget, ok);
    }

    method Finish(version: Version, deleted: seq<Entry>) returns (ok: bool)
      modifies this
      ensures Outcome(old(files), old(budget), DeleteSteps(deleted, version) + [VersionStep(version)], junk,
                      files, budget, ok)
    {
      ghost var f0, n0 := files, budget;
      ok := RemoveDeleted(deleted, version);
      if !ok {
        CutShort(f0, n0, DeleteSteps(deleted, version), junk, files, budget, [VersionStep(version)]);
        return;
      }
      ok := Then(f0, n0, DeleteSteps(deleted, version), VersionStep(version));
    }

    /** One round of the loop below: if it fails, so does the whole run. */
    method InstallNext(zips: map<string, seq<ZipEntry>>, updates: seq<Entry>, deleted: seq<Entry>, i: nat,
                       ghost f0: Files, ghost n0: nat) returns (ok: bool)
      requires i < |updates| && Outcome(f0, n0, StepsOf(zips, updates[..i], deleted), junk, files, budget, true)
      modifies this
      ensures ok ==> Outcome(f0, n0, StepsOf(zips, updates[..i + 1], deleted), junk, files, budget, true)
      ensures !ok ==> Outcome(f0, n0, StepsOf(zips, updates, deleted), junk, files, budget, false)
    {
      ghost var f1, n1 := files, budget;
      ghost var done, next := StepsOf(zips, updates[..i], deleted), UpdateSteps(zips, updates[i], deleted);
      ok := InstallOne(zips, updates[i], deleted);
      Chained(f0, n0, done, junk, f1, n1, next, files, budget, ok);
      StepsSplit(zips, updates, deleted, i);
      if !ok {
        CutShort(f0, n0, done + next, junk, files, budget, StepsOf(zips, updates[i + 1..], deleted));
      }
    }

    /** `rrc_update_do_updates_with_state` */
    method DoUpdatesWithState(zips: map<string, seq<ZipEntry>>, updates: seq<Entry>, deleted: seq<Entry>)
      returns (ok: bool)
      modifies this
      ensures Outcome(old(files), old(budget), StepsOf(zips, updates, deleted), junk, files, budget, ok)
    {
      ghost var f0, n0 := files, budget;
      var currentUpdateNum := 0;
      assert updates[..currentUpdateNum] == [];
      while currentUpdateNum < |updates|
        invariant 0 <= currentUpdateNum <= |updates|
        invariant Outcome(f0, n0, StepsOf(zips, updates[..currentUpdateNum], deleted), junk, files, budget, true)
      {
        ok := InstallNext(zips, updates, deleted, currentUpdateNum, f0, n0);
        if !ok {
          return;
        }
        currentUpdateNum := currentUpdateNum + 1;
      }
      assert updates[..currentUpdateNum] == updates;
      ok := true;
    }

    /** `rrc_update_do_updates`: a declined prompt ends the run in success with the card as it was. */
    method DoUpdates(server: Server, answers: Answers) returns (ok: bool, installed: bool)
      requires ListOk(server.versions) && ListOk(server.deleted)
      modifies this
      ensures (files, ok) == if Declined(server, old(files), answers) then (old(files), true)
                             else RunOnce(server, old(files), old(budget), junk)
      ensures installed ==> ok && !Declined(server, old(files), answers)
      ensures !installed && ok ==> files == old(files)
    {
      if VERSION_FILE !in files {
        return false, false;
      }
      var current := FromString(files[VERSION_FILE]);
      if current.None? || current.value.major < 0 {
        return false, false;
      }
      var updates := NewerEntries(server.versions, current.value);
      if updates.None? {
        return false, false;
      }
      if updates.value == [] || !answers.update {
        return true, false;
      }
      var deleted := NewerEntries(server.deleted, current.value);
      if deleted.None? {
        return false, false;
      }
      if answers.large && !answers.continues {
        return true, false;
      }
      ok := DoUpdatesWithState(server.zips, updates.value, deleted.value);
      installed := ok;
    }
  }

  /** The steps of the first updates, of one more, and of the rest. */
  lemma StepsSplit(zips: map<string, seq<ZipEntry>>, updates: seq<Entry>, deleted: seq<Entry>, k: nat)
    requires k < |updates|
    ensures StepsOf(zips, updates[..k + 1], deleted)
              == StepsOf(zips, updates[..k], deleted) + UpdateSteps(zips, updates[k], deleted)
    ensures StepsOf(zips, updates, deleted)
              == StepsOf(zips, updates[..k + 1], deleted) + StepsOf(zips, updates[k + 1..], deleted)
  {
    StepsConcat(zips, updates[..k], [updates[k]], deleted);
    assert updates[..k] + [updates[k]] == updates[..k + 1];
    assert [updates[k]][1..] == [];
    assert StepsOf(zips, [updates[k]], deleted) == UpdateSteps(zips, updates[k], deleted) + [];
    StepsConcat(zips, updates[..k + 1], updates[k + 1..], deleted);
    assert updates[..k + 1] + updates[k + 1..] == updates;
  }

  lemma {:induction false} StepsConcat(zips: map<string, seq<ZipEntry>>, a: seq<Entry>, b: seq<Entry>,
                                       deleted: seq<Entry>)
    ensures StepsOf(zips, a + b, deleted) == StepsOf(zips, a, deleted) + StepsOf(zips, b, deleted)
  {
    if a == [] {
      assert a + b == b;
    } else {
      StepsConcat(zips, a[1..], b, deleted);
      assert (a + b)[1..] == a[1..] + b && (a + b)[0] == a[0];
      Regroup(UpdateSteps(zips, a[0], deleted), StepsOf(zips, a[1..], deleted), StepsOf(zips, b, deleted));
    }
  }

  function EntryStepsFrom(entries: seq<ZipEntry>, i: nat): seq<Step>
    requires i <= |entries|
    decreases |entries| - i
  {
    if i == |entries| then [] else EntrySteps(entries[i]) + EntryStepsFrom(entries, i + 1)
  }

  lemma {:induction false} EntriesFrom(entries: seq<ZipEntry>, i: nat)
    requires i <= |entries|
    ensures AllEntrySteps(entries) == AllEntrySteps(entries[..i]) + EntryStepsFrom(entries, i)
    decreases |entries| - i
  {
    if i == |entries| {
      assert entries[..i] == entries;
    } else {
      EntriesFrom(entries, i + 1);
      assert entries[..i + 1][..i] == entries[..i] && entries[..i + 1][i] == entries[i];
      Regroup(AllEntrySteps(entries[..i]), EntrySteps(entries[i]), EntryStepsFrom(entries, i + 1));
    }
  }

  function DeleteStepsFrom(deleted: seq<Entry>, version: Version, i: nat): seq<Step>
    requires i <= |deleted|
    decreases |deleted| - i
  {
    if i == |deleted| then []
    else (if Equals(deleted[i].version, version) then [Remove(Canonical(deleted[i].text))] else []) +
         DeleteStepsFrom(deleted, version, i + 1)
  }

  lemma {:induction false} DeletesFrom(deleted: seq<Entry>, version: Version, i: nat)
    requires i <= |deleted|
    ensures DeleteSteps(deleted, version) == DeleteSteps(deleted[..i], version) + DeleteStepsFrom(deleted, version, i)
    decreases |deleted| - i
  {
    if i == |deleted| {
      assert deleted[..i] == deleted;
    } else {
      DeletesFrom(deleted, version, i + 1);
      assert deleted[..i + 1][..i] == deleted[..i];
    }
  }
}
