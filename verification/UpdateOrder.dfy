// Why the version list has to ascend (source/update/update.c, lines 552-724; versionsfile.c, lines 246-327).

/** For every selected list that does not ascend, archives and an interruption after which no rerun catches up. */
module UpdateOrder {
  import opened CStrings
  import opened Versions
  import opened VersionsFile
  import opened Update
  import opened UpdateConvergence
  import opened UpdateEffect

  /** Every update has its own URL, and its version fits the buffer it is printed to. */
  predicate Separate(pending: seq<Entry>) {
    && (forall i, j :: 0 <= i < j < |pending| ==> pending[i].text != pending[j].text)
    && (forall i :: 0 <= i < |pending| ==> |Printed(pending[i].version)| < 32)
  }

  const MARK := "mark"

  /** One archive holds one file, the others nothing. */
  function MarkedZips(pending: seq<Entry>, marked: string, content: string): Zips {
    map u | u in pending :: u.text := if u.text == marked then [ZipEntry(MARK, content)] else []
  }

  lemma MarkIsSafe()
    ensures PathIsSafe(MARK) && !IsDirectory(MARK) && MARK != VERSION_FILE && MARK != TEMP_ZIP
            && Canonical(MARK) == MARK
  {
    assert forall i :: 0 <= i < |MARK| ==> ToLower(MARK[i]) == MARK[i];
    assert Canonical(MARK) == MARK;
    assert |MARK| == 4 && |TEMP_ZIP| == 13 && |VERSION_FILE| == 24;
  }

  lemma ZipsInstall(pending: seq<Entry>, marked: string, content: string, u: Entry)
    requires u in pending && |Printed(u.version)| < 32
    ensures Installable(MarkedZips(pending, marked, content), u)
  {
    MarkIsSafe();
  }

  /** Updates other than the marked one leave the mark alone. */
  lemma {:induction false} Unmarked(zips: Zips, list: seq<Entry>, marked: string, before: Option<string>)
    requires forall i :: 0 <= i < |list| ==> list[i].text in zips && zips[list[i].text] == []
    ensures AllUpdated(zips, list, [], MARK, before) == before
    decreases list
  {
    if list != [] {
      MarkIsSafe();
      Unmarked(zips, list[1..], marked, before);
    }
  }

  lemma {:induction false} Marked(zips: Zips, list: seq<Entry>, j: nat, content: string, before: Option<string>)
    requires j < |list| && list[j].text in zips && zips[list[j].text] == [ZipEntry(MARK, content)]
    requires forall i :: 0 <= i < |list| && i != j ==> list[i].text in zips && zips[list[i].text] == []
    ensures AllUpdated(zips, list, [], MARK, before) == Some(content)
    decreases j
  {
    MarkIsSafe();
    if j > 0 {
      Marked(zips, list[1..], j - 1, content, before);
    } else {
      assert LastContent([ZipEntry(MARK, content)], MARK) == Some(content);
      Unmarked(zips, list[1..], list[0].text, Some(content));
    }
  }

  /** Nothing is rejected, so with enough budget all steps are performed. */
  lemma {:induction false} StepsInstall(zips: Zips, list: seq<Entry>)
    requires forall i :: 0 <= i < |list| ==> Installable(zips, list[i])
    ensures NoneRejected(StepsOf(zips, list, []), |StepsOf(zips, list, [])|)
    decreases list
  {
    if list != [] {
      RejectedExactlyWhen(zips, list[0], []);
      StepsInstall(zips, list[1..]);
      RejectedConcat(UpdateSteps(zips, list[0], []), StepsOf(zips, list[1..], []));
    }
  }

  lemma RunAll(zips: Zips, list: seq<Entry>, files: Files)
    requires forall i :: 0 <= i < |list| ==> Installable(zips, list[i])
    ensures var steps := StepsOf(zips, list, []);
            Performed(files, steps, |steps|, None) == (AllApplied(files, steps), true)
    ensures ContentOf(AllApplied(files, StepsOf(zips, list, [])), MARK)
              == AllUpdated(zips, list, [], MARK, ContentOf(files, MARK))
  {
    var steps := StepsOf(zips, list, []);
    StepsInstall(zips, list);
    EnoughBudgetSucceeds(files, steps, |steps|, None);
    SuccessAppliesAll(files, steps, |steps|, None);
    StepsOfEffect(zips, list, [], files, MARK);
  }

  /** A run stopped behind its first `k` updates has done exactly those. */
  lemma StoppedBehindUpdates(zips: Zips, list: seq<Entry>, k: nat, files: Files)
    requires (forall i :: 0 <= i < |list| ==> Installable(zips, list[i])) && k < |list|
    ensures var done := StepsOf(zips, list[..k], []);
            Performed(files, StepsOf(zips, list, []), |done|, None) == (AllApplied(files, done), false)
  {
    SplitSteps(zips, list, k);
    RunAll(zips, list[..k], files);
    StoppedBetween(files, StepsOf(zips, list[..k], []), StepsOf(zips, list[k..], []));
  }

  lemma SplitSteps(zips: Zips, list: seq<Entry>, k: nat)
    requires k < |list| && list[k].text in zips
    ensures StepsOf(zips, list, []) == StepsOf(zips, list[..k], []) + StepsOf(zips, list[k..], [])
    ensures StepsOf(zips, list[k..], []) != [] && StepsOf(zips, list[k..], [])[0] == Check
  {
    assert list == list[..k] + list[k..];
    StepsConcat(zips, list[..k], list[k..], []);
    FirstStepIsCheck(zips, list[k..]);
  }

  lemma StoppedBetween(files: Files, done: seq<Step>, rest: seq<Step>)
    requires Performed(files, done, |done|, None) == (AllApplied(files, done), true) && rest != [] && rest[0] == Check
    ensures Performed(files, done + rest, |done|, None) == (AllApplied(files, done), false)
  {
    PerformedConcat(files, done, rest, |done|, None);
  }

  lemma FirstStepIsCheck(zips: Zips, list: seq<Entry>)
    requires list != [] && list[0].text in zips
    ensures StepsOf(zips, list, []) != [] && StepsOf(zips, list, [])[0] == Check
  {
    assert UpdateSteps(zips, list[0], [])[0] == Check;
  }

  // ---- The diverging runs ----

  lemma MarkedServer(versions: string, updates: seq<Entry>, pending: seq<Entry>, marked: string, content: string)
    returns (server: Server)
    requires ListOk(versions) && ListOf(versions) == Some(updates)
    ensures server == Server(versions, "", MarkedZips(pending, marked, content)) && Offers(server, updates, [])
  {
    server := Server(versions, "", MarkedZips(pending, marked, content));
    MarkIsSafe();
    assert Split("", '\n') == [] && LineEntries([]) == [];
  }

  /** From the version of update `i`, an update `j` that is not newer is not selected again, nor is its URL. */
  lemma NotSelectedAgain(updates: seq<Entry>, current: Version, i: nat, j: nat, u: Entry)
    requires var pending := NewerOf(updates, current);
             && i < j < |pending| && Separate(pending) && !IsOlder(pending[i].version, pending[j].version)
             && u in NewerOf(updates, pending[i].version)
    ensures u in NewerOf(updates, current) && u.text != NewerOf(updates, current)[j].text
  {
    var pending := NewerOf(updates, current);
    NewerOfMembers(updates, current);
    NewerOfMembers(updates, pending[i].version);
    assert pending[i] in pending;
    OlderIsStrictTotalOrder(current, pending[i].version, u.version);
    assert u in pending;
    var k :| 0 <= k < |pending| && pending[k] == u;
    assert k != j;
  }

  lemma MarkedRun(zips: Zips, list: seq<Entry>, j: nat, content: string, files: Files)
    requires (forall i :: 0 <= i < |list| ==> Installable(zips, list[i])) && j < |list|
    requires list[j].text in zips && zips[list[j].text] == [ZipEntry(MARK, content)]
    requires forall i :: 0 <= i < |list| && i != j ==> list[i].text in zips && zips[list[i].text] == []
    ensures ContentOf(AllApplied(files, StepsOf(zips, list, [])), MARK) == Some(content)
  {
    RunAll(zips, list, files);
    Marked(zips, list, j, content, ContentOf(files, MARK));
  }

  lemma UnmarkedRun(zips: Zips, list: seq<Entry>, files: Files)
    requires forall i :: 0 <= i < |list| ==> Installable(zips, list[i]) && zips[list[i].text] == []
    ensures ContentOf(AllApplied(files, StepsOf(zips, list, [])), MARK) == ContentOf(files, MARK)
  {
    RunAll(zips, list, files);
    Unmarked(zips, list, "", ContentOf(files, MARK));
  }

  /** The card when the run stops behind update `i`: its version is installed, the mark is not. */
  lemma StoppedCard(zips: Zips, pending: seq<Entry>, current: Version, files: Files, i: nat)
    requires i < |pending| && Installed(files) == Some(current)
    requires forall k :: 0 <= k <= i
               ==> Installable(zips, pending[k]) && zips[pending[k].text] == [] && Printable(pending[k].version)
    ensures var mid := AllApplied(files, StepsOf(zips, pending[..i + 1], []));
            Installed(mid) == Some(pending[i].version) && ContentOf(mid, MARK) == ContentOf(files, MARK)
  {
    var front := pending[..i + 1];
    StepsInstall(zips, front);
    CompleteRun(zips, front, [], files, current);
    UnmarkedRun(zips, front, files);
  }

  /** What a rerun from the stopped card makes of the mark: nothing. */
  lemma RerunMisses(server: Server, updates: seq<Entry>, current: Version, i: nat, j: nat, content: string, mid: Files)
    returns (last: Attempt)
    requires var pending := NewerOf(updates, current);
             && i < j < |pending| && Separate(pending) && !IsOlder(pending[i].version, pending[j].version)
             && server.zips == MarkedZips(pending, pending[j].text, content)
             && Installed(mid) == Some(pending[i].version) && pending[i].version.major >= 0
    requires Offers(server, updates, [])
    ensures RunOnce(server, mid, last.n, last.junk).1
    ensures ContentOf(RunOnce(server, mid, last.n, last.junk).0, MARK) == ContentOf(mid, MARK)
  {
    var pending := NewerOf(updates, current);
    var rest := NewerOf(updates, pending[i].version);
    forall k | 0 <= k < |rest| ensures Installable(server.zips, rest[k]) && server.zips[rest[k].text] == [] {
      NotSelectedAgain(updates, current, i, j, rest[k]);
      ZipsInstall(pending, pending[j].text, content, rest[k]);
    }
    last := Attempt(|StepsOf(server.zips, rest, [])|, None);
    RunPerforms(server, updates, [], mid, pending[i].version, last.n, None);
    RunAll(server.zips, rest, mid);
    UnmarkedRun(server.zips, rest, mid);
  }

  lemma PendingPrintable(versions: string, updates: seq<Entry>, current: Version, i: nat)
    requires ListOk(versions) && ListOf(versions) == Some(updates) && i < |NewerOf(updates, current)|
    ensures Printable(NewerOf(updates, current)[i].version) && IsOlder(current, NewerOf(updates, current)[i].version)
  {
    var u := NewerOf(updates, current)[i];
    NewerOfMembers(updates, current);
    assert u in NewerOf(updates, current);
    ParsedIsPrintable(Split(versions, '\n'), u);
  }

  /**
   * For every list that reads as these entries, when its newer part does not ascend: archives, a run stopped between
   * two updates, and a rerun that succeeds but leaves another card than one uninterrupted run.
   */
  lemma NonAscendingDiverges(versions: string, updates: seq<Entry>, current: Version, files: Files)
    returns (server: Server, stop: Attempt, last: Attempt, single: Attempt)
    requires ListOk(versions) && ListOf(versions) == Some(updates)
    requires Installed(files) == Some(current) && current.major >= 0
    requires Separate(NewerOf(updates, current)) && !Ascending(NewerOf(updates, current))
    ensures server.versions == versions && Offers(server, updates, [])
            && !Converges(server, files, [stop], last, single)
  {
    var pending := NewerOf(updates, current);
    var i, j :| 0 <= i < j < |pending| && !IsOlder(pending[i].version, pending[j].version);
    var content := if ContentOf(files, MARK) == Some("x") then "y" else "x";
    server := MarkedServer(versions, updates, pending, pending[j].text, content);
    PendingInstalls(server, updates, current, pending[j].text, content);
    single := SingleRun(server, updates, current, j, content, files);
    OthersUnmarked(pending, i, j, content);
    stop := StoppedRun(server, updates, current, i, files);
    PendingPrintable(versions, updates, current, i);
    var mid := RunOnce(server, files, stop.n, stop.junk).0;
    last := RerunMisses(server, updates, current, i, j, content, mid);
    CardsDiffer(server, files, mid, stop, last, single);
  }

  lemma PendingInstalls(server: Server, updates: seq<Entry>, current: Version, marked: string, content: string)
    requires Offers(server, updates, []) && Separate(NewerOf(updates, current))
    requires server.zips == MarkedZips(NewerOf(updates, current), marked, content)
    ensures var pending := NewerOf(updates, current);
            forall k :: 0 <= k < |pending| ==> Installable(server.zips, pending[k]) && Printable(pending[k].version)
  {
    var pending := NewerOf(updates, current);
    forall k | 0 <= k < |pending| ensures Installable(server.zips, pending[k]) && Printable(pending[k].version) {
      ZipsInstall(pending, marked, content, pending[k]);
      PendingPrintable(server.versions, updates, current, k);
    }
  }

  lemma CardsDiffer(server: Server, files: Files, mid: Files, stop: Attempt, last: Attempt, single: Attempt)
    requires ListOk(server.versions) && ListOk(server.deleted) && mid == RunOnce(server, files, stop.n, stop.junk).0
    requires RunOnce(server, mid, last.n, last.junk).1 && RunOnce(server, files, single.n, single.junk).1
    requires ContentOf(RunOnce(server, mid, last.n, last.junk).0, MARK)
               != ContentOf(RunOnce(server, files, single.n, single.junk).0, MARK)
    ensures !Converges(server, files, [stop], last, single)
  {
    assert [stop][..0] == [];
    assert AfterAttempts(server, files, [stop]) == mid;
  }

  lemma SingleRun(server: Server, updates: seq<Entry>, current: Version, j: nat, content: string, files: Files)
    returns (single: Attempt)
    requires Offers(server, updates, []) && Installed(files) == Some(current) && current.major >= 0
    requires var pending := NewerOf(updates, current);
             && j < |pending| && Separate(pending) && server.zips == MarkedZips(pending, pending[j].text, content)
             && forall k :: 0 <= k < |pending| ==> Installable(server.zips, pending[k])
    ensures RunOnce(server, files, single.n, single.junk).1
    ensures ContentOf(RunOnce(server, files, single.n, single.junk).0, MARK) == Some(content)
  {
    var pending := NewerOf(updates, current);
    single := Attempt(|StepsOf(server.zips, pending, [])|, None);
    RunPerforms(server, updates, [], files, current, single.n, None);
    RunAll(server.zips, pending, files);
    assert forall k :: 0 <= k < |pending| && k != j ==> pending[k].text != pending[j].text;
    MarkedRun(server.zips, pending, j, content, files);
  }

  lemma OthersUnmarked(pending: seq<Entry>, i: nat, j: nat, content: string)
    requires Separate(pending) && i < j < |pending|
    ensures forall k :: 0 <= k <= i ==> MarkedZips(pending, pending[j].text, content)[pending[k].text] == []
  {
    assert forall k :: 0 <= k <= i ==> pending[k] in pending && pending[k].text != pending[j].text;
  }

  lemma StoppedRun(server: Server, updates: seq<Entry>, current: Version, i: nat, files: Files) returns (stop: Attempt)
    requires Offers(server, updates, []) && Installed(files) == Some(current) && current.major >= 0
    requires var pending := NewerOf(updates, current);
             && i + 1 < |pending|
             && (forall k :: 0 <= k < |pending| ==>
                  Installable(server.zips, pending[k]) && Printable(pending[k].version))
             && forall k :: 0 <= k <= i ==> server.zips[pending[k].text] == []
    ensures var mid := RunOnce(server, files, stop.n, stop.junk).0;
            Installed(mid) == Some(NewerOf(updates, current)[i].version)
            && ContentOf(mid, MARK) == ContentOf(files, MARK)
  {
    var pending := NewerOf(updates, current);
    stop := Attempt(|StepsOf(server.zips, pending[..i + 1], [])|, None);
    RunPerforms(server, updates, [], files, current, stop.n, None);
    StoppedBehindUpdates(server.zips, pending, i + 1, files);
    StoppedCard(server.zips, pending, current, files, i);
  }
}
