// source/update/update.c, lines 367-619: names of archive entries, and what one update leaves under which path.

/** One update in the user's terms: which files are on the card afterwards, with the paths written out. */
module UpdateLaws {
  import opened CStrings
  import opened Versions
  import opened VersionsFile
  import opened Update
  import opened UpdateConvergence
  import opened UpdateEffect

  // ---- Names ----

  /** Exactly these entry names are refused: none, one from the root, and any with two dots in a row. */
  lemma UnsafeIff(name: string)
    ensures !PathIsSafe(name) <==>
              || name == "" || name[0] == '/' || name[0] == '\\'
              || exists a: string, b: string :: name == a + ".." + b
  {
    if HasDotDot(name) {
      var i :| 0 <= i < |name| - 1 && name[i] == '.' && name[i + 1] == '.';
      assert name == name[..i] + ".." + name[i + 2..];
    }
    forall a: string, b: string | name == a + ".." + b
      ensures HasDotDot(name)
    {
      assert name[|a|] == '.' && name[|a| + 1] == '.';
    }
  }

  /** Case does not distinguish files, nor does a slash in front. */
  lemma CanonicalIs(p: CString)
    requires p == [] || p[0] != '/'
    ensures Canonical(p) == Lower(p) && Canonical("/" + p) == Lower(p)
  {
    assert ("/" + p)[1..] == p;
  }

  // ---- One update ----

  /** An update that is not refused, with the limits written out. */
  predicate Accepted(zips: Zips, update: Entry) {
    && update.text in zips
    && (forall e :: e in zips[update.text] ==> PathIsSafe(e.name))
    && |Printed(update.version)| <= 31
  }

  function After(zips: Zips, update: Entry, deleted: seq<Entry>, files: Files): Files {
    AllApplied(files, UpdateSteps(zips, update, deleted))
  }

  /** It performs all its steps if and only if it is one. */
  lemma PerformedIffAccepted(zips: Zips, update: Entry, deleted: seq<Entry>, files: Files)
    ensures Performed(files, UpdateSteps(zips, update, deleted), |UpdateSteps(zips, update, deleted)|, None).1 <==>
              Accepted(zips, update)
  {
    var steps := UpdateSteps(zips, update, deleted);
    AcceptedIsInstallable(zips, update);
    RejectedExactlyWhen(zips, update, deleted);
    if Accepted(zips, update) {
      EnoughBudgetSucceeds(files, steps, |steps|, None);
    }
    if Performed(files, steps, |steps|, None).1 {
      SuccessAppliesAll(files, steps, |steps|, None);
    }
  }

  lemma AcceptedIsInstallable(zips: Zips, update: Entry)
    ensures Accepted(zips, update) <==> Installable(zips, update)
  {
    if update.text in zips && AllSafe(zips[update.text]) {
      var entries := zips[update.text];
      assert forall e :: e in entries ==> exists i :: 0 <= i < |entries| && entries[i] == e;
    }
  }

  /** Afterwards the version file says the update's version, and the archive is gone. */
  lemma VersionIsWritten(zips: Zips, update: Entry, deleted: seq<Entry>, files: Files)
    requires Accepted(zips, update)
    ensures ContentOf(After(zips, update, deleted, files), "retrorewind6/version.txt") == Some(Printed(update.version))
    ensures ContentOf(After(zips, update, deleted, files), "rr.update.zip") == None
  {
    AcceptedIsInstallable(zips, update);
    UpdateStepsEffect(zips, update, deleted, files, "retrorewind6/version.txt");
    UpdateStepsEffect(zips, update, deleted, files, "rr.update.zip");
    assert |"rr.update.zip"| != |"retrorewind6/version.txt"|;
  }

  /** Neither of those two files. */
  predicate Ordinary(path: string) { path != "retrorewind6/version.txt" && path != "rr.update.zip" }

  /** No deletion for this version names the file. */
  predicate NotDeleted(deleted: seq<Entry>, version: Version, path: string) {
    forall d :: d in deleted && d.version == version ==> Canonical(d.text) != path
  }

  lemma {:induction false} LastContentIs(entries: seq<ZipEntry>, k: nat, path: string)
    requires k < |entries| && Canonical(entries[k].name) == path && !IsDirectory(entries[k].name)
    requires forall j :: k < j < |entries| && !IsDirectory(entries[j].name) ==> Canonical(entries[j].name) != path
    ensures LastContent(entries, path) == Some(entries[k].content)
  {
    if k < |entries| - 1 {
      LastContentIs(entries[..|entries| - 1], k, path);
    }
  }

  lemma {:induction false} NoContent(entries: seq<ZipEntry>, path: string)
    requires forall j :: 0 <= j < |entries| && !IsDirectory(entries[j].name) ==> Canonical(entries[j].name) != path
    ensures LastContent(entries, path) == None
  {
    if entries != [] {
      NoContent(entries[..|entries| - 1], path);
    }
  }

  /** A name ends in a slash, as those of folders do. */
  predicate EndsInSlash(name: string) { |name| > 0 && name[|name| - 1] == '/' }

  /** A file of the archive is there with its content, unless a later entry has its name or a deletion takes it. */
  lemma FileIsInstalled(zips: Zips, update: Entry, deleted: seq<Entry>, files: Files, k: nat, name: CString)
    requires Accepted(zips, update) && k < |zips[update.text]| && zips[update.text][k].name == name
    requires !EndsInSlash(name) && Ordinary(Lower(name)) && NotDeleted(deleted, update.version, Lower(name))
    requires forall j :: k < j < |zips[update.text]| && !EndsInSlash(zips[update.text][j].name) ==>
               Canonical(zips[update.text][j].name) != Lower(name)
    ensures ContentOf(After(zips, update, deleted, files), Lower(name)) == Some(zips[update.text][k].content)
  {
    var entries := zips[update.text];
    assert PathIsSafe(entries[k].name);
    CanonicalIs(name);
    AcceptedIsInstallable(zips, update);
    LastContentIs(entries, k, Lower(name));
    UpdateStepsEffect(zips, update, deleted, files, Lower(name));
  }

  /** A file that a deletion for this version names is gone, whether the list gives it with a slash in front or not. */
  lemma DeletedIsGone(zips: Zips, update: Entry, deleted: seq<Entry>, files: Files, d: Entry, path: CString)
    requires Accepted(zips, update) && d in deleted && d.version == update.version
    requires (path == [] || path[0] != '/') && (d.text == path || d.text == "/" + path) && Ordinary(Lower(path))
    ensures ContentOf(After(zips, update, deleted, files), Lower(path)) == None
  {
    CanonicalIs(path);
    AcceptedIsInstallable(zips, update);
    var i :| 0 <= i < |deleted| && deleted[i] == d;
    assert Deletes(deleted, update.version, Lower(path));
    UpdateStepsEffect(zips, update, deleted, files, Lower(path));
  }

  /** Every other file stays as it was; folder entries write nothing. */
  lemma OtherFilesStay(zips: Zips, update: Entry, deleted: seq<Entry>, files: Files, path: string)
    requires Accepted(zips, update) && Ordinary(path) && NotDeleted(deleted, update.version, path)
    requires forall e :: e in zips[update.text] && !EndsInSlash(e.name) ==> Canonical(e.name) != path
    ensures ContentOf(After(zips, update, deleted, files), path) == ContentOf(files, path)
  {
    AcceptedIsInstallable(zips, update);
    NoContent(zips[update.text], path);
    UpdateStepsEffect(zips, update, deleted, files, path);
  }

  // ---- Prompts ----

  /** With updates pending, the user's no ends the run with the card as it was: to the update, or to a large one. */
  lemma NoEndsTheRun(server: Server, files: Files, current: Version, updates: seq<Entry>, deletions: seq<Entry>,
                     answers: Answers)
    requires Offers(server, updates, deletions) && Installed(files) == Some(current) && current.major >= 0
    requires NewerOf(updates, current) != []
    ensures Declined(server, files, answers) <==>
              !answers.update || (answers.large && !answers.continues)
  {
    SelectedIsFiltered(server.versions, current);
    SelectedIsFiltered(server.deleted, current);
  }

  // ---- Runs ----

  /** With nothing newer in the list, the run succeeds and changes nothing. */
  lemma NothingNewerIsSuccess(server: Server, updates: seq<Entry>, deletions: seq<Entry>, current: Version,
                              files: Files, n: nat, junk: Option<string>)
    requires Offers(server, updates, deletions) && Installed(files) == Some(current) && current.major >= 0
    requires forall u :: u in updates ==> !IsOlder(current, u.version)
    ensures RunOnce(server, files, n, junk) == (files, true)
  {
    NoneNewer(updates, current);
    SelectedIsFiltered(server.versions, current);
    NothingToDo(server, files, current, n, junk);
  }

  lemma {:induction false} NoneNewer(updates: seq<Entry>, current: Version)
    requires forall u :: u in updates ==> !IsOlder(current, u.version)
    ensures NewerOf(updates, current) == []
  {
    if updates != [] {
      NoneNewer(updates[..|updates| - 1], current);
    }
  }

  lemma NothingToDo(server: Server, files: Files, current: Version, n: nat, junk: Option<string>)
    requires ListOk(server.versions) && ListOk(server.deleted)
    requires Installed(files) == Some(current) && current.major >= 0 && Selected(server.versions, current) == Some([])
    ensures RunOnce(server, files, n, junk) == (files, true)
  {
  }

  /** A version file that is missing, does not parse or holds a negative number ends the run before it begins. */
  lemma NoVersionIsFailure(server: Server, files: Files, n: nat, junk: Option<string>)
    requires ListOk(server.versions) && ListOk(server.deleted)
    requires "retrorewind6/version.txt" in files ==>
               var installed := Parsed(files["retrorewind6/version.txt"]);
               installed.None? || installed.value.major < 0
    ensures RunOnce(server, files, n, junk) == (files, false)
  {
  }

  // ---- Failing steps ----

  /** A file write that fails may leave any content, or none. */
  lemma FailedWrite(files: Files, path: string, content: string, rest: seq<Step>, junk: string)
    ensures Performed(files, [Write(path, content)] + rest, 0, Some(junk)) == (files[path := junk], false)
    ensures Performed(files, [Write(path, content)] + rest, 0, None) == (files, false)
  {
  }

  /** Any other step that fails leaves the card as it was. */
  lemma FailedStep(files: Files, step: Step, rest: seq<Step>, junk: Option<string>)
    requires !step.Write?
    ensures Performed(files, [step] + rest, 0, junk) == (files, false)
  {
  }
}
