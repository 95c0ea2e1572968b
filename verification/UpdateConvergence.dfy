// Interrupted update runs converge (source/update/update.c, lines 552-619).

/**
 * Any number of runs that stop anywhere, then one that succeeds, leave the card as one uninterrupted run does.
 * Extracting again absorbs a partial extraction, deleting again is harmless, and the version file alone decides
 * where the next run resumes.
 */
module UpdateConvergence {
  import opened CStrings
  import opened Versions
  import opened VersionsFile
  import opened Update

  type Zips = map<string, seq<ZipEntry>>

  function AllApplied(files: Files, steps: seq<Step>): Files
    decreases steps
  {
    if steps == [] then files else AllApplied(Applied(files, steps[0]), steps[1..])
  }

  lemma {:induction false} AppliedConcat(files: Files, a: seq<Step>, b: seq<Step>)
    ensures AllApplied(files, a + b) == AllApplied(AllApplied(files, a), b)
    decreases a
  {
    if a == [] {
      assert a + b == b;
    } else {
      assert (a + b)[1..] == a[1..] + b;
      AppliedConcat(Applied(files, a[0]), a[1..], b);
    }
  }

  /** The path a step changes, if any. */
  function Path(step: Step): Option<string> {
    match step
    case Write(path, _) => Some(path)
    case Remove(path) => Some(path)
    case WriteVersion(_) => Some(VERSION_FILE)
    case _ => None
  }

  predicate Touches(steps: seq<Step>, path: string) {
    steps != [] && (Path(steps[0]) == Some(path) || Touches(steps[1..], path))
  }

  lemma {:induction false} TouchesConcat(a: seq<Step>, b: seq<Step>, path: string)
    ensures Touches(a + b, path) <==> Touches(a, path) || Touches(b, path)
  {
    if a == [] {
      assert a + b == b;
    } else {
      assert (a + b)[1..] == a[1..] + b;
      TouchesConcat(a[1..], b, path);
    }
  }

  lemma TouchesOne(step: Step, path: string)
    ensures Touches([step], path) <==> Path(step) == Some(path)
  {
    assert [step][1..] == [];
  }

  lemma TouchesTwo(a: Step, b: Step, path: string)
    ensures Touches([a, b], path) <==> Path(a) == Some(path) || Path(b) == Some(path)
  {
    assert [a, b][1..] == [b];
    TouchesOne(b, path);
  }

  predicate SameAt(f: Files, g: Files, path: string) {
    (path in f <==> path in g) && (path in f ==> f[path] == g[path])
  }

  /** The two cards differ at most in files the steps change. */
  ghost predicate SameElsewhere(f: Files, g: Files, steps: seq<Step>) {
    forall path :: !Touches(steps, path) ==> SameAt(f, g, path)
  }

  /** Performing the steps makes such cards equal: every file is settled by the last step that changes it. */
  lemma {:induction false} StepsAbsorb(f: Files, g: Files, steps: seq<Step>)
    requires SameElsewhere(f, g, steps)
    ensures AllApplied(f, steps) == AllApplied(g, steps)
    decreases steps
  {
    if steps == [] {
      SameEverywhere(f, g);
    } else {
      forall path | !Touches(steps[1..], path)
        ensures SameAt(Applied(f, steps[0]), Applied(g, steps[0]), path)
      {
        if Path(steps[0]) != Some(path) {
          assert !Touches(steps, path);
          assert SameAt(f, g, path);
        }
      }
      StepsAbsorb(Applied(f, steps[0]), Applied(g, steps[0]), steps[1..]);
    }
  }

  lemma SameEverywhere(f: Files, g: Files)
    requires forall path :: SameAt(f, g, path)
    ensures f == g
  {
    forall path
      ensures path in f <==> path in g
    {
      assert SameAt(f, g, path);
    }
    forall path | path in f
      ensures f[path] == g[path]
    {
      assert SameAt(f, g, path);
    }
  }

  /** What any number of steps, and a failing one after them, do to files none of them changes. */
  lemma {:induction false} PartialSameElsewhere(files: Files, steps: seq<Step>, k: nat, junk: Option<string>)
    requires k < |steps|
    ensures SameElsewhere(files, Torn(AllApplied(files, steps[..k]), steps[k], junk), steps)
    decreases k
  {
    if k == 0 {
      assert steps[..0] == [];
    } else {
      var next, rest := Applied(files, steps[0]), steps[1..];
      PartialSameElsewhere(next, rest, k - 1, junk);
      assert steps[..k][0] == steps[0] && steps[..k][1..] == rest[..k - 1];
      var last := Torn(AllApplied(files, steps[..k]), steps[k], junk);
      forall path | !Touches(steps, path)
        ensures SameAt(files, last, path)
      {
        assert Path(steps[0]) != Some(path) && !Touches(rest, path);
        assert SameAt(files, next, path) && SameAt(next, last, path);
      }
    }
  }

  // ---- Where a run stops ----

  /** A run performs some steps, none of them rejected; if it stops short, the next one fails and may leave junk. */
  lemma {:induction false} RunStops(files: Files, steps: seq<Step>, n: nat, junk: Option<string>) returns (k: nat)
    ensures k <= |steps| && (forall i :: 0 <= i < k ==> !steps[i].Reject?)
    ensures Performed(files, steps, n, junk)
              == if k == |steps| then (AllApplied(files, steps), true)
                 else (Torn(AllApplied(files, steps[..k]), steps[k], junk), false)
    decreases steps
  {
    if steps == [] || n == 0 || steps[0].Reject? {
      k := 0;
      assert steps != [] ==> steps[..0] == [];
    } else {
      var rest := steps[1..];
      var j := RunStops(Applied(files, steps[0]), rest, n - 1, junk);
      k := j + 1;
      assert forall i :: 0 < i < k ==> steps[i] == rest[i - 1];
      if k < |steps| {
        assert steps[..k][1..] == rest[..j];
      }
    }
  }

  /** With enough budget and nothing rejected, a run succeeds. */
  lemma {:induction false} EnoughBudgetSucceeds(files: Files, steps: seq<Step>, n: nat, junk: Option<string>)
    requires |steps| <= n && forall i :: 0 <= i < |steps| ==> !steps[i].Reject?
    ensures Performed(files, steps, n, junk).1
    decreases steps
  {
    if steps != [] {
      EnoughBudgetSucceeds(Applied(files, steps[0]), steps[1..], n - 1, junk);
    }
  }

  // ---- The version file during one update ----

  /** No archive holds the version file, and no deletion names it. */
  ghost predicate VersionFileSpared(zips: Zips, updates: seq<Entry>, deleted: seq<Entry>) {
    && (forall u, e :: u in updates && u.text in zips && e in zips[u.text] ==> Canonical(e.name) != VERSION_FILE)
    && (forall d :: d in deleted ==> Canonical(d.text) != VERSION_FILE)
  }

  lemma EntrySpares(e: ZipEntry)
    requires Canonical(e.name) != VERSION_FILE
    ensures !Touches(EntrySteps(e), VERSION_FILE)
  {
    TouchesOne(Reject, VERSION_FILE);
    TouchesOne(Check, VERSION_FILE);
    TouchesTwo(Check, Write(Canonical(e.name), e.content), VERSION_FILE);
  }

  lemma {:induction false} EntryStepsSpare(entries: seq<ZipEntry>)
    requires forall e :: e in entries ==> Canonical(e.name) != VERSION_FILE
    ensures !Touches(AllEntrySteps(entries), VERSION_FILE)
  {
    if entries != [] {
      var n := |entries| - 1;
      EntryStepsSpare(entries[..n]);
      assert entries[n] in entries;
      EntrySpares(entries[n]);
      TouchesConcat(AllEntrySteps(entries[..n]), EntrySteps(entries[n]), VERSION_FILE);
    }
  }

  lemma {:induction false} DeleteStepsSpare(deleted: seq<Entry>, version: Version)
    requires forall d :: d in deleted ==> Canonical(d.text) != VERSION_FILE
    ensures !Touches(DeleteSteps(deleted, version), VERSION_FILE)
  {
    if deleted != [] {
      var n := |deleted| - 1;
      DeleteStepsSpare(deleted[..n], version);
      assert deleted[n] in deleted;
      TouchesConcat(DeleteSteps(deleted[..n], version),
                    if Equals(deleted[n].version, version) then [Remove(Canonical(deleted[n].text))]
                    else [], VERSION_FILE);
    }
  }

  /** Everything an update does before it writes the version. */
  function Body(zips: Zips, update: Entry, deleted: seq<Entry>): seq<Step>
    requires update.text in zips
  {
    DownloadSteps(update.text) + AllEntrySteps(zips[update.text]) + [Remove(TEMP_ZIP)] +
    DeleteSteps(deleted, update.version)
  }

  lemma BodySparesVersionFile(zips: Zips, update: Entry, deleted: seq<Entry>)
    requires VersionFileSpared(zips, [update], deleted) && update.text in zips
    ensures !Touches(Body(zips, update, deleted), VERSION_FILE)
  {
    var path := VERSION_FILE;
    var entries := zips[update.text];
    assert forall e :: e in entries ==> update in [update] && Canonical(e.name) != VERSION_FILE;
    EntryStepsSpare(entries);
    DeleteStepsSpare(deleted, update.version);
    TempIsNotVersionFile();
    TouchesConcat(DownloadSteps(update.text), AllEntrySteps(entries), path);
    TouchesConcat(DownloadSteps(update.text) + AllEntrySteps(entries), [Remove(TEMP_ZIP)], path);
    TouchesConcat(DownloadSteps(update.text) + AllEntrySteps(entries) + [Remove(TEMP_ZIP)],
                  DeleteSteps(deleted, update.version), path);
    TempStepsSpare(update.text);
  }

  lemma TempIsNotVersionFile()
    ensures TEMP_ZIP != VERSION_FILE
  {
    assert |TEMP_ZIP| != |VERSION_FILE|;
  }

  lemma TempStepsSpare(url: string)
    ensures !Touches(DownloadSteps(url), VERSION_FILE) && !Touches([Remove(TEMP_ZIP)], VERSION_FILE)
  {
    TempIsNotVersionFile();
    TouchesTwo(Check, Write(TEMP_ZIP, url), VERSION_FILE);
    TouchesOne(Check, VERSION_FILE);
    TouchesConcat([Check, Write(TEMP_ZIP, url)], [Check], VERSION_FILE);
    assert DownloadSteps(url) == [Check, Write(TEMP_ZIP, url)] + [Check];
    TouchesOne(Remove(TEMP_ZIP), VERSION_FILE);
  }

  /** Steps that spare the version file leave the installed version alone. */
  lemma {:induction false} SparedKeepsInstalled(files: Files, steps: seq<Step>, k: nat)
    requires !Touches(steps, VERSION_FILE) && k <= |steps|
    ensures SameAt(files, AllApplied(files, steps[..k]), VERSION_FILE)
    decreases k
  {
    if k == 0 {
      assert steps[..0] == [];
    } else {
      var next := Applied(files, steps[0]);
      assert steps[..k][0] == steps[0] && steps[..k][1..] == steps[1..][..k - 1];
      SparedKeepsInstalled(next, steps[1..], k - 1);
      assert SameAt(files, next, VERSION_FILE);
    }
  }

  lemma {:induction false} TouchesElement(steps: seq<Step>, k: nat, path: string)
    requires k < |steps| && Path(steps[k]) == Some(path)
    ensures Touches(steps, path)
  {
    if k > 0 {
      TouchesElement(steps[1..], k - 1, path);
    }
  }

  // ---- One update, interrupted or complete ----

  /**
   * Stopped inside an update: the version is still the old one, and doing the update again gives what it would have
   * given.
   */
  lemma InterruptedUpdate(zips: Zips, update: Entry, deleted: seq<Entry>, files: Files, k: nat, junk: Option<string>)
    requires VersionFileSpared(zips, [update], deleted)
    requires k < |UpdateSteps(zips, update, deleted)|
    ensures var steps := UpdateSteps(zips, update, deleted);
            var stopped := Torn(AllApplied(files, steps[..k]), steps[k], junk);
            Installed(stopped) == Installed(files) && AllApplied(stopped, steps) == AllApplied(files, steps)
  {
    var steps := UpdateSteps(zips, update, deleted);
    PartialSameElsewhere(files, steps, k, junk);
    StepsAbsorb(files, Torn(AllApplied(files, steps[..k]), steps[k], junk), steps);
    if update.text in zips {
      var body := Body(zips, update, deleted);
      assert steps == body + [VersionStep(update.version)];
      BodySparesVersionFile(zips, update, deleted);
      assert steps[..k] == body[..k];
      SparedKeepsInstalled(files, body, k);
      if k < |body| && steps[k].Write? && steps[k].path == VERSION_FILE {
        TouchesElement(body, k, VERSION_FILE);
      }
    } else {
      assert steps[..k] == [];
    }
  }

  /** A complete update leaves its own version installed. */
  lemma CompleteUpdate(zips: Zips, update: Entry, deleted: seq<Entry>, files: Files)
    requires Printable(update.version)
    requires NoneRejected(UpdateSteps(zips, update, deleted), |UpdateSteps(zips, update, deleted)|)
    ensures Installed(AllApplied(files, UpdateSteps(zips, update, deleted))) == Some(update.version)
  {
    var steps := UpdateSteps(zips, update, deleted);
    assert steps[0] != Reject;
    var body := Body(zips, update, deleted);
    var last := VersionStep(update.version);
    assert steps == body + [last] && steps[|steps| - 1] == last;
    PrintedParses(update.version);
    VersionInstalled(files, body, Printed(update.version), update.version);
  }

  lemma VersionInstalled(files: Files, body: seq<Step>, text: string, version: Version)
    requires Parsed(text) == Some(version)
    ensures Installed(AllApplied(files, body + [WriteVersion(text)])) == Some(version)
  {
    AppliedConcat(files, body, [WriteVersion(text)]);
    assert [WriteVersion(text)][1..] == [];
  }

  // ---- A run over several updates ----

  predicate NoneRejected(steps: seq<Step>, k: nat)
    requires k <= |steps|
  {
    forall i :: 0 <= i < k ==> !steps[i].Reject?
  }

  /** The version the card shows once the first `i` of the pending updates are done. */
  function VersionAfter(current: Version, pending: seq<Entry>, i: nat): Version
    requires i <= |pending|
  {
    if i == 0 then current else pending[i - 1].version
  }

  lemma SparedFirst(zips: Zips, pending: seq<Entry>, deleted: seq<Entry>)
    requires pending != [] && VersionFileSpared(zips, pending, deleted)
    ensures VersionFileSpared(zips, [pending[0]], deleted) && VersionFileSpared(zips, pending[1..], deleted)
  {
  }

  /** On this card `i` updates are complete, the version says so, and the rest lead to the goal. */
  ghost predicate Resumes(zips: Zips, pending: seq<Entry>, deleted: seq<Entry>, current: Version, goal: Files,
                          card: Files, i: nat) {
    && i <= |pending|
    && Installed(card) == Some(VersionAfter(current, pending, i))
    && AllApplied(card, StepsOf(zips, pending[i..], deleted)) == goal
  }

  /** The card when the step behind the first `k` fails. */
  function StoppedAt(files: Files, steps: seq<Step>, k: nat, junk: Option<string>): Files
    requires k < |steps|
  {
    Torn(AllApplied(files, steps[..k]), steps[k], junk)
  }

  /** Stopped inside the first update, before the steps of the rest. */
  lemma InterruptedInFirst(zips: Zips, pending: seq<Entry>, deleted: seq<Entry>, files: Files, current: Version,
                           goal: Files, first: seq<Step>, rest: seq<Step>, k: nat, junk: Option<string>)
    requires pending != [] && VersionFileSpared(zips, [pending[0]], deleted) && Installed(files) == Some(current)
    requires first == UpdateSteps(zips, pending[0], deleted) && rest == StepsOf(zips, pending[1..], deleted)
    requires goal == AllApplied(files, first + rest) && k < |first|
    ensures Resumes(zips, pending, deleted, current, goal, StoppedAt(files, first, k, junk), 0)
  {
    var stopped := StoppedAt(files, first, k, junk);
    InterruptedUpdate(zips, pending[0], deleted, files, k, junk);
    AppliedConcat(files, first, rest);
    AppliedConcat(stopped, first, rest);
    assert pending[0..] == pending;
  }

  lemma ResumesLater(zips: Zips, pending: seq<Entry>, deleted: seq<Entry>, current: Version, goal: Files, card: Files,
                     j: nat)
    requires pending != [] && Resumes(zips, pending[1..], deleted, pending[0].version, goal, card, j)
    ensures Resumes(zips, pending, deleted, current, goal, card, j + 1)
  {
    assert pending[1..][j..] == pending[j + 1..];
  }

  lemma StoppedBefore(files: Files, first: seq<Step>, rest: seq<Step>, k: nat, junk: Option<string>)
    requires k < |first|
    ensures StoppedAt(files, first + rest, k, junk) == StoppedAt(files, first, k, junk)
  {
    assert (first + rest)[..k] == first[..k];
  }

  lemma StoppedBehind(files: Files, first: seq<Step>, rest: seq<Step>, k: nat, junk: Option<string>)
    requires |first| <= k < |first| + |rest|
    ensures StoppedAt(files, first + rest, k, junk) == StoppedAt(AllApplied(files, first), rest, k - |first|, junk)
  {
    assert (first + rest)[..k] == first + rest[..k - |first|];
    AppliedConcat(files, first, rest[..k - |first|]);
  }

  /** Wherever a run is stopped, the card it leaves can be resumed from. */
  lemma {:induction false} InterruptedRun(zips: Zips, pending: seq<Entry>, deleted: seq<Entry>, files: Files,
                                          current: Version,
                                          goal: Files, steps: seq<Step>, k: nat, junk: Option<string>) returns (i: nat)
    requires VersionFileSpared(zips, pending, deleted) && Installed(files) == Some(current)
    requires forall u :: u in pending ==> Printable(u.version)
    requires steps == StepsOf(zips, pending, deleted) && goal == AllApplied(files, steps)
    requires k < |steps| && NoneRejected(steps, k)
    ensures Resumes(zips, pending, deleted, current, goal, StoppedAt(files, steps, k, junk), i)
    decreases pending, 1
  {
    var first, rest := UpdateSteps(zips, pending[0], deleted), StepsOf(zips, pending[1..], deleted);
    assert steps == first + rest;
    SparedFirst(zips, pending, deleted);
    if k < |first| {
      i := 0;
      StoppedBefore(files, first, rest, k, junk);
      InterruptedInFirst(zips, pending, deleted, files, current, goal, first, rest, k, junk);
    } else {
      StoppedBehind(files, first, rest, k, junk);
      FirstUpdateDone(zips, pending[0], deleted, files, first, rest, k);
      i := InterruptedLater(zips, pending, deleted, AllApplied(files, first), current, goal, rest, k - |first|, junk);
    }
  }

  lemma FirstUpdateDone(zips: Zips, update: Entry, deleted: seq<Entry>, files: Files, first: seq<Step>, rest: seq<Step>,
                        k: nat)
    requires first == UpdateSteps(zips, update, deleted) && Printable(update.version)
    requires |first| <= k <= |first| + |rest| && NoneRejected(first + rest, k)
    ensures Installed(AllApplied(files, first)) == Some(update.version) && NoneRejected(rest, k - |first|)
    ensures AllApplied(files, first + rest) == AllApplied(AllApplied(files, first), rest)
  {
    RestNotRejected(first, rest, k);
    CompleteUpdate(zips, update, deleted, files);
    AppliedConcat(files, first, rest);
  }

  /** Stopped behind the first update, which is done. */
  lemma {:induction false} InterruptedLater(zips: Zips, pending: seq<Entry>, deleted: seq<Entry>, done: Files,
                                            current: Version,
                                            goal: Files, rest: seq<Step>, k: nat, junk: Option<string>) returns (i: nat)
    requires pending != [] && VersionFileSpared(zips, pending[1..], deleted)
             && Installed(done) == Some(pending[0].version)
    requires forall u :: u in pending ==> Printable(u.version)
    requires rest == StepsOf(zips, pending[1..], deleted) && goal == AllApplied(done, rest)
    requires k < |rest| && NoneRejected(rest, k)
    ensures Resumes(zips, pending, deleted, current, goal, StoppedAt(done, rest, k, junk), i)
    decreases pending, 0
  {
    var j := InterruptedRun(zips, pending[1..], deleted, done, pending[0].version, goal, rest, k, junk);
    i := j + 1;
    ResumesLater(zips, pending, deleted, current, goal, StoppedAt(done, rest, k, junk), j);
  }

  lemma RestNotRejected(first: seq<Step>, rest: seq<Step>, k: nat)
    requires |first| <= k <= |first| + |rest| && NoneRejected(first + rest, k)
    ensures NoneRejected(first, |first|) && NoneRejected(rest, k - |first|)
  {
    assert forall j :: 0 <= j < |first| ==> first[j] == (first + rest)[j];
    assert forall j :: 0 <= j < |rest| ==> rest[j] == (first + rest)[j + |first|];
  }

  /** A complete run leaves the last version installed. */
  lemma {:induction false} CompleteRun(zips: Zips, pending: seq<Entry>, deleted: seq<Entry>, files: Files,
                                       current: Version)
    requires Installed(files) == Some(current) && forall u :: u in pending ==> Printable(u.version)
    requires NoneRejected(StepsOf(zips, pending, deleted), |StepsOf(zips, pending, deleted)|)
    ensures Installed(AllApplied(files, StepsOf(zips, pending, deleted)))
              == Some(VersionAfter(current, pending, |pending|))
    decreases pending
  {
    if pending != [] {
      var first, rest := UpdateSteps(zips, pending[0], deleted), StepsOf(zips, pending[1..], deleted);
      RestNotRejected(first, rest, |first| + |rest|);
      CompleteUpdate(zips, pending[0], deleted, files);
      CompleteRun(zips, pending[1..], deleted, AllApplied(files, first), pending[0].version);
      AppliedConcat(files, first, rest);
    }
  }

  // ---- The deletion list may be filtered by any older version ----

  lemma {:induction false} DeleteStepsOfNewer(deleted: seq<Entry>, current: Version, version: Version)
    requires IsOlder(current, version)
    ensures DeleteSteps(NewerOf(deleted, current), version) == DeleteSteps(deleted, version)
  {
    if deleted != [] {
      var n := |deleted| - 1;
      DeleteStepsOfNewer(deleted[..n], current, version);
      var before := NewerOf(deleted[..n], current);
      if IsOlder(current, deleted[n].version) {
        assert (before + [deleted[n]])[..|before|] == before;
      } else {
        assert !Equals(deleted[n].version, version);
      }
    }
  }

  lemma {:induction false} StepsOfNewer(zips: Zips, pending: seq<Entry>, deleted: seq<Entry>, current: Version)
    requires forall u :: u in pending ==> IsOlder(current, u.version)
    ensures StepsOf(zips, pending, NewerOf(deleted, current)) == StepsOf(zips, pending, deleted)
  {
    if pending != [] {
      StepsOfNewer(zips, pending[1..], deleted, current);
      DeleteStepsOfNewer(deleted, current, pending[0].version);
    }
  }

  // ---- Runs in a row ----

  /** The entries a run reads from a list; None when the list is too long or holds a version that does not parse. */
  function ListOf(text: string): Option<seq<Entry>> {
    if |Split(text, '\n')| > SPLIT_LIMIT then None else AllParsed(Split(text, '\n'))
  }

  /**
   * What the server offers: both lists in any form that reads as these entries, and archives that leave the version
   * file alone.
   */
  ghost predicate Offers(server: Server, updates: seq<Entry>, deletions: seq<Entry>) {
    && ListOk(server.versions) && ListOk(server.deleted)
    && ListOf(server.versions) == Some(updates) && ListOf(server.deleted) == Some(deletions)
    && VersionFileSpared(server.zips, updates, deletions)
  }

  lemma SelectedIsFiltered(text: string, current: Version)
    ensures Selected(text, current) == if ListOf(text).None? then None else Some(NewerOf(ListOf(text).value, current))
  {
    NewerIsFiltered(Split(text, '\n'), current);
  }

  /** A run from a card that shows version `current` performs the steps of everything newer. */
  lemma RunPerforms(server: Server, updates: seq<Entry>, deletions: seq<Entry>, files: Files, current: Version,
                    n: nat, junk: Option<string>)
    requires Offers(server, updates, deletions) && Installed(files) == Some(current) && current.major >= 0
    ensures RunOnce(server, files, n, junk)
              == Performed(files, StepsOf(server.zips, NewerOf(updates, current), deletions), n, junk)
  {
    SelectedIsFiltered(server.versions, current);
    SelectedIsFiltered(server.deleted, current);
    NewerOfMembers(updates, current);
    StepsOfNewer(server.zips, NewerOf(updates, current), deletions, current);
  }

  /** One more run, stopped or not, from a card that can be resumed from, leaves one that can be resumed from. */
  lemma OneMoreRun(server: Server, updates: seq<Entry>, deletions: seq<Entry>, current: Version, goal: Files,
                   files: Files, i: nat, n: nat, junk: Option<string>) returns (j: nat)
    requires Offers(server, updates, deletions) && current.major >= 0
    requires Ascending(NewerOf(updates, current))
    requires Resumes(server.zips, NewerOf(updates, current), deletions, current, goal, files, i)
    ensures var (files', ok) := RunOnce(server, files, n, junk);
            Resumes(server.zips, NewerOf(updates, current), deletions, current, goal, files', j)
            && (ok ==> files' == goal)
  {
    RunIsRest(server, updates, deletions, current, files, i, n, junk);
    PendingFacts(server, updates, deletions, current, i);
    var pending := NewerOf(updates, current);
    j := RunOnRest(server.zips, pending, deletions, current, goal, files, i, pending[i..], n, junk);
  }

  lemma RunIsRest(server: Server, updates: seq<Entry>, deletions: seq<Entry>, current: Version, files: Files,
                  i: nat, n: nat, junk: Option<string>)
    requires Offers(server, updates, deletions) && current.major >= 0
    requires Ascending(NewerOf(updates, current)) && i <= |NewerOf(updates, current)|
    requires Installed(files) == Some(VersionAfter(current, NewerOf(updates, current), i))
    ensures RunOnce(server, files, n, junk)
              == Performed(files, StepsOf(server.zips, NewerOf(updates, current)[i..], deletions), n, junk)
  {
    PendingIs(updates, current, i);
    RunPerforms(server, updates, deletions, files, VersionAfter(current, NewerOf(updates, current), i), n, junk);
  }

  lemma RunOnRest(zips: Zips, pending: seq<Entry>, deletions: seq<Entry>, current: Version, goal: Files, files: Files,
                  i: nat, rest: seq<Entry>, n: nat, junk: Option<string>) returns (j: nat)
    requires Resumes(zips, pending, deletions, current, goal, files, i) && rest == pending[i..]
    requires VersionFileSpared(zips, rest, deletions) && forall u :: u in rest ==> Printable(u.version)
    ensures var (files', ok) := Performed(files, StepsOf(zips, rest, deletions), n, junk);
            Resumes(zips, pending, deletions, current, goal, files', j) && (ok ==> files' == goal)
  {
    var now := RestOf(zips, pending, deletions, current, goal, files, i, rest);
    var card := Performed(files, StepsOf(zips, rest, deletions), n, junk).0;
    var more := RunOn(zips, rest, deletions, now, goal, files, n, junk);
    j := i + more;
    ResumesFromRest(zips, pending, deletions, current, goal, i, rest, now, card, more);
  }

  lemma RestOf(zips: Zips, pending: seq<Entry>, deletions: seq<Entry>, current: Version, goal: Files, files: Files,
               i: nat, rest: seq<Entry>) returns (now: Version)
    requires Resumes(zips, pending, deletions, current, goal, files, i) && rest == pending[i..]
    ensures now == VersionAfter(current, pending, i) && Installed(files) == Some(now)
    ensures AllApplied(files, StepsOf(zips, rest, deletions)) == goal
  {
    now := VersionAfter(current, pending, i);
  }

  /** The same for the steps of the remaining updates. */
  lemma RunOn(zips: Zips, pending: seq<Entry>, deletions: seq<Entry>, now: Version, goal: Files, files: Files,
              n: nat, junk: Option<string>) returns (i: nat)
    requires Installed(files) == Some(now) && AllApplied(files, StepsOf(zips, pending, deletions)) == goal
    requires VersionFileSpared(zips, pending, deletions) && forall u :: u in pending ==> Printable(u.version)
    ensures var (files', ok) := Performed(files, StepsOf(zips, pending, deletions), n, junk);
            Resumes(zips, pending, deletions, now, goal, files', i) && (ok ==> files' == goal)
  {
    var steps := StepsOf(zips, pending, deletions);
    var k := RunStops(files, steps, n, junk);
    if k < |steps| {
      i := InterruptedRun(zips, pending, deletions, files, now, goal, steps, k, junk);
    } else {
      i := |pending|;
      CompleteRun(zips, pending, deletions, files, now);
      ResumesAtEnd(zips, pending, deletions, now, goal);
    }
  }

  lemma ResumesAtEnd(zips: Zips, pending: seq<Entry>, deletions: seq<Entry>, now: Version, goal: Files)
    requires Installed(goal) == Some(VersionAfter(now, pending, |pending|))
    ensures Resumes(zips, pending, deletions, now, goal, goal, |pending|)
  {
    assert pending[|pending|..] == [];
  }

  lemma ResumesFromRest(zips: Zips, pending: seq<Entry>, deletions: seq<Entry>, current: Version, goal: Files,
                        i: nat, rest: seq<Entry>, now: Version, card: Files, more: nat)
    requires i <= |pending| && rest == pending[i..] && now == VersionAfter(current, pending, i)
    requires Resumes(zips, rest, deletions, now, goal, card, more)
    ensures Resumes(zips, pending, deletions, current, goal, card, i + more)
  {
    assert rest[more..] == pending[i + more..];
  }

  lemma PendingIs(updates: seq<Entry>, current: Version, i: nat)
    requires Ascending(NewerOf(updates, current)) && i <= |NewerOf(updates, current)| && current.major >= 0
    ensures NewerOf(updates, VersionAfter(current, NewerOf(updates, current), i)) == NewerOf(updates, current)[i..]
    ensures VersionAfter(current, NewerOf(updates, current), i).major >= 0
  {
    var pending := NewerOf(updates, current);
    ResumesExactlyIffAscending(updates, current);
    NewerOfMembers(updates, current);
    if i > 0 {
      assert pending[i - 1] in pending;
    } else {
      assert pending[0..] == pending;
    }
  }

  lemma PendingFacts(server: Server, updates: seq<Entry>, deletions: seq<Entry>, current: Version, i: nat)
    requires Offers(server, updates, deletions) && i <= |NewerOf(updates, current)|
    ensures VersionFileSpared(server.zips, NewerOf(updates, current)[i..], deletions)
    ensures forall u :: u in NewerOf(updates, current)[i..] ==> Printable(u.version)
  {
    NewerOfMembers(updates, current);
    forall u | u in NewerOf(updates, current)[i..]
      ensures u in updates && Printable(u.version)
    {
      assert u in NewerOf(updates, current);
      ParsedIsPrintable(Split(server.versions, '\n'), u);
    }
  }

  /** A run that may stop: how many steps it manages, and what the failing one leaves. */
  datatype Attempt = Attempt(n: nat, junk: Option<string>)

  function AfterAttempts(server: Server, files: Files, attempts: seq<Attempt>): Files
    requires ListOk(server.versions) && ListOk(server.deleted)
  {
    if attempts == [] then files
    else
      var last := attempts[|attempts| - 1];
      RunOnce(server, AfterAttempts(server, files, attempts[..|attempts| - 1]), last.n, last.junk).0
  }

  /** The card once everything newer is installed. */
  function Goal(zips: Zips, updates: seq<Entry>, deletions: seq<Entry>, files: Files, current: Version): Files {
    AllApplied(files, StepsOf(zips, NewerOf(updates, current), deletions))
  }

  lemma {:induction false} AttemptsResume(server: Server, updates: seq<Entry>, deletions: seq<Entry>, files: Files,
                                          current: Version, attempts: seq<Attempt>) returns (i: nat)
    requires Offers(server, updates, deletions) && Installed(files) == Some(current) && current.major >= 0
    requires Ascending(NewerOf(updates, current))
    ensures Resumes(server.zips, NewerOf(updates, current), deletions, current,
                    Goal(server.zips, updates, deletions, files, current),
                    AfterAttempts(server, files, attempts), i)
  {
    if attempts == [] {
      i := 0;
      assert NewerOf(updates, current)[0..] == NewerOf(updates, current);
    } else {
      var last := attempts[|attempts| - 1];
      var before := attempts[..|attempts| - 1];
      var j := AttemptsResume(server, updates, deletions, files, current, before);
      i := OneMoreRun(server, updates, deletions, current, Goal(server.zips, updates, deletions, files, current),
                      AfterAttempts(server, files, before), j, last.n, last.junk);
    }
  }

  /** Interrupted runs and a single run, if they both succeed, leave the same card. */
  predicate Converges(server: Server, files: Files, attempts: seq<Attempt>, last: Attempt, single: Attempt)
    requires ListOk(server.versions) && ListOk(server.deleted)
  {
    var interrupted := RunOnce(server, AfterAttempts(server, files, attempts), last.n, last.junk);
    var uninterrupted := RunOnce(server, files, single.n, single.junk);
    interrupted.1 && uninterrupted.1 ==> interrupted.0 == uninterrupted.0
  }

  /**
   * Any number of runs, each stopped at any step with any junk left behind, then one that succeeds: the card,
   * version file included, is the one a single uninterrupted run leaves.
   */
  lemma InterruptedRunsConverge(server: Server, updates: seq<Entry>, deletions: seq<Entry>, files: Files,
                                current: Version, attempts: seq<Attempt>, last: Attempt, single: Attempt)
    requires Offers(server, updates, deletions) && Installed(files) == Some(current) && current.major >= 0
    requires Ascending(NewerOf(updates, current))
    ensures Converges(server, files, attempts, last, single)
  {
    var i := AttemptsResume(server, updates, deletions, files, current, attempts);
    var goal := Goal(server.zips, updates, deletions, files, current);
    var j := OneMoreRun(server, updates, deletions, current, goal, AfterAttempts(server, files, attempts), i, last.n,
                        last.junk);
    assert NewerOf(updates, current)[0..] == NewerOf(updates, current);
    var k := OneMoreRun(server, updates, deletions, current, goal, files, 0, single.n, single.junk);
  }

  /** A list that is too long, or holds a version that does not parse, stops every run before it changes anything. */
  lemma UnreadableListChangesNothing(server: Server, files: Files, n: nat, junk: Option<string>)
    requires ListOk(server.versions) && ListOk(server.deleted)
    requires ListOf(server.versions).None? || ListOf(server.deleted).None?
    ensures RunOnce(server, files, n, junk).0 == files
  {
    if Installed(files).Some? {
      SelectedIsFiltered(server.versions, Installed(files).value);
      SelectedIsFiltered(server.deleted, Installed(files).value);
    }
  }

  /** A version file that does not parse, as a torn version write may leave it, stops every later run. */
  lemma UnreadableVersionIsFinal(server: Server, files: Files, attempts: seq<Attempt>, last: Attempt)
    requires ListOk(server.versions) && ListOk(server.deleted) && Installed(files).None?
    ensures AfterAttempts(server, files, attempts) == files
    ensures RunOnce(server, files, last.n, last.junk) == (files, false)
  {
    if attempts != [] {
      UnreadableVersionIsFinal(server, files, attempts[..|attempts| - 1], last);
    }
  }
}
