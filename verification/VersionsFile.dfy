// source/update/versionsfile.c: splitting and filtering the version list and the list of deleted files.

module VersionsFile {
  import opened CStrings
  import opened Versions

  const SPLIT_LIMIT: nat := 4096

  // ---- Splitting ----

  function FirstIndex(s: string, c: char): (e: nat)
    ensures e <= |s| && (e < |s| ==> s[e] == c) && forall j :: 0 <= j < e ==> s[j] != c
  {
    if s == [] || s[0] == c then 0 else FirstIndex(s[1..], c) + 1
  }

  /** Tokens between separators; a separator at the very end adds no empty token. */
  function Split(s: string, sep: char): seq<string> {
    if s == [] then []
    else
      var e := FirstIndex(s, sep);
      if e == |s| then [s] else [s[..e]] + Split(s[e + 1..], sep)
  }

  function Join(tokens: seq<string>, sep: char): string {
    if tokens == [] then []
    else if |tokens| == 1 then tokens[0]
    else tokens[0] + [sep] + Join(tokens[1..], sep)
  }

  lemma FirstIndexIs(s: string, c: char, e: nat)
    requires e <= |s| && (e < |s| ==> s[e] == c) && forall j :: 0 <= j < e ==> s[j] != c
    ensures FirstIndex(s, c) == e
  {
  }

  /** The token that starts at `start` ends at `i`, at a separator or as the last byte of the text. */
  lemma TokenEnds(s: string, sep: char, start: nat, i: nat)
    requires start <= i < |s| && forall j :: start <= j < i ==> s[j] != sep
    requires s[i] == sep || i == |s| - 1
    ensures Split(s[start..], sep) == [s[start..if s[i] == sep then i else i + 1]] + Split(s[i + 1..], sep)
  {
    var tail := s[start..];
    if s[i] == sep {
      FirstIndexIs(tail, sep, i - start);
      assert tail[..i - start] == s[start..i] && tail[i - start + 1..] == s[i + 1..];
    } else {
      FirstIndexIs(tail, sep, |tail|);
      assert s[i + 1..] == [] && s[start..i + 1] == tail;
    }
  }

  /** The splitting pass: `tokens` are found, the current token begins at `start`, `i` is the next byte. */
  function SplitFrom(s: string, sep: char, start: nat, i: nat, tokens: seq<string>): seq<string>
    requires start <= i <= |s|
    decreases |s| - i
  {
    if i == |s| then tokens
    else if s[i] == sep then SplitFrom(s, sep, i + 1, i + 1, tokens + [s[start..i]])
    else if i == |s| - 1 then tokens + [s[start..i + 1]]
    else SplitFrom(s, sep, start, i + 1, tokens)
  }

  lemma {:induction false} SplitFromIsSplit(s: string, sep: char, start: nat, i: nat, tokens: seq<string>)
    requires start <= i <= |s| && (i == |s| ==> start == |s|) && forall j :: start <= j < i ==> s[j] != sep
    ensures SplitFrom(s, sep, start, i, tokens) == tokens + Split(s[start..], sep)
    decreases |s| - i
  {
    if i == |s| {
      assert s[start..] == [];
    } else if s[i] == sep {
      TokenEnds(s, sep, start, i);
      SplitFromIsSplit(s, sep, i + 1, i + 1, tokens + [s[start..i]]);
      Regroup(tokens, [s[start..i]], Split(s[i + 1..], sep));
    } else if i == |s| - 1 {
      TokenEnds(s, sep, start, i);
      assert s[i + 1..] == [];
    } else {
      SplitFromIsSplit(s, sep, start, i + 1, tokens);
    }
  }

  lemma {:induction false} SplitFromExtends(s: string, sep: char, start: nat, i: nat, tokens: seq<string>)
    requires start <= i <= |s|
    ensures tokens <= SplitFrom(s, sep, start, i, tokens)
    decreases |s| - i
  {
    if i < |s| {
      if s[i] == sep {
        SplitFromExtends(s, sep, i + 1, i + 1, tokens + [s[start..i]]);
      } else if i < |s| - 1 {
        SplitFromExtends(s, sep, start, i + 1, tokens);
      }
    }
  }

  /** `rrc_versionsfile_split_by`: all tokens, or code 2 as soon as there are more than 4096. */
  method SplitBy(s: string, sep: char) returns (tokens: seq<string>, code: int)
    ensures code == 0 || code == 2
    ensures code == 0 <==> |Split(s, sep)| <= 4096
    ensures code == 0 ==> tokens == Split(s, sep)
    ensures code == 2 ==> tokens == Split(s, sep)[..4097]
  {
    tokens, code := SplitPass(s, sep);
    SplitFromIsSplit(s, sep, 0, 0, []);
    assert s[0..] == s && [] + Split(s, sep) == Split(s, sep);
  }

  method SplitPass(s: string, sep: char) returns (tokens: seq<string>, code: int)
    ensures code == 0 || code == 2
    ensures code == 0 ==> |tokens| <= SPLIT_LIMIT && tokens == SplitFrom(s, sep, 0, 0, [])
    ensures code == 2 ==> |tokens| == SPLIT_LIMIT + 1 && tokens <= SplitFrom(s, sep, 0, 0, [])
  {
    tokens := [];
    var len, i, currentLen, startIdx := |s|, 0, 0, 0;
    while i < len
      invariant 0 <= startIdx <= i <= len == |s| && currentLen == i - startIdx
      invariant |tokens| <= SPLIT_LIMIT
      invariant SplitFrom(s, sep, 0, 0, []) == SplitFrom(s, sep, startIdx, i, tokens)
    {
      if s[i] == sep || i == len - 1 {
        if i == len - 1 && s[i] != sep {
          currentLen := currentLen + 1;
        }
        tokens := tokens + [s[startIdx..startIdx + currentLen]];
        startIdx := i + 1;
        if |tokens| > SPLIT_LIMIT {
          SplitFromExtends(s, sep, i + 1, i + 1, tokens);
          return tokens, 2;
        }
        currentLen := 0;
      } else {
        currentLen := currentLen + 1;
      }
      i := i + 1;
    }
    code := 0;
  }

  /** No token holds the separator. */
  lemma {:induction false} TokensHoldNoSeparator(s: string, sep: char, t: string)
    requires t in Split(s, sep)
    ensures sep !in t
  {
    var e := FirstIndex(s, sep);
    if e < |s| && t != s[..e] {
      TokensHoldNoSeparator(s[e + 1..], sep, t);
    }
  }

  predicate EndsWith(s: string, c: char) {
    s != [] && s[|s| - 1] == c
  }

  /** Joining gives the text back, up to one separator at its end. */
  lemma {:induction false} SplitLosesNothing(s: string, sep: char)
    ensures s == Restored(s, sep)
  {
    var e := FirstIndex(s, sep);
    if e < |s| {
      SplitLosesNothing(s[e + 1..], sep);
      assert s == s[..e] + [sep] + s[e + 1..];
      LosesNothingStep(s[..e], s[e + 1..], Split(s[e + 1..], sep), sep);
    }
  }

  function Restored(s: string, sep: char): string {
    Join(Split(s, sep), sep) + Tail(s, sep)
  }

  function Tail(s: string, sep: char): string {
    if EndsWith(s, sep) then [sep] else []
  }

  lemma LosesNothingStep(first: string, rest: string, tokens: seq<string>, sep: char)
    requires (rest == [] <==> tokens == []) && rest == Join(tokens, sep) + Tail(rest, sep)
    ensures first + [sep] + rest == Join([first] + tokens, sep) + Tail(first + [sep] + rest, sep)
  {
    var s := first + [sep] + rest;
    if rest == [] {
      assert s == first + [sep];
    } else {
      JoinWithFirst(first, tokens, sep);
      assert s[|s| - 1] == rest[|rest| - 1];
      assert first + [sep] + (Join(tokens, sep) + Tail(rest, sep))
               == first + [sep] + Join(tokens, sep) + Tail(rest, sep);
    }
  }

  lemma JoinWithFirst(first: string, tokens: seq<string>, sep: char)
    requires tokens != []
    ensures Join([first] + tokens, sep) == first + [sep] + Join(tokens, sep)
  {
    assert ([first] + tokens)[1..] == tokens;
  }

  /** The first line of a text whose lines are all terminated. */
  lemma SplitFirst(t: string, rest: string, sep: char)
    requires sep !in t
    ensures Split(t + [sep] + rest, sep) == [t] + Split(rest, sep)
  {
    var s := t + [sep] + rest;
    FirstIndexIs(s, sep, |t|);
    assert s[..|t|] == t && s[|t| + 1..] == rest;
  }

  // ---- Filtering ----

  /** One line of either list: a version and the URL or path that follows it. */
  datatype Entry = Entry(version: Version, text: string)

  /** What is read of a line is there: a first field, and a second one if the first parses as a version. */
  predicate LineOk(line: string) {
    var parts := Split(line, ' ');
    parts != [] && (Parsed(parts[0]).Some? ==> |parts| >= 2)
  }

  /** The first `n` lines all give an entry, so that the next one is reached. */
  predicate AllRead(lines: seq<string>, n: nat)
    requires n <= |lines|
  {
    forall j :: 0 <= j < n ==> LineEntry(lines[j]).Some?
  }

  /**
   * The same for every line that is reached: reading stops at a version that does not parse, and does not begin if the
   * list is too long.
   */
  predicate ListOk(text: string) {
    var lines := Split(text, '\n');
    |lines| <= SPLIT_LIMIT ==> forall i :: 0 <= i < |lines| && AllRead(lines, i) ==> LineOk(lines[i])
  }

  /** The entries newer than `current`, in file order; None when some version does not parse. */
  function Newer(lines: seq<string>, current: Version): Option<seq<Entry>> {
    if lines == [] then Some([])
    else NextEntry(Newer(lines[..|lines| - 1], current), LineEntry(lines[|lines| - 1]), current)
  }

  /** The version and text of a line; None when the version does not parse. */
  function LineEntry(line: string): Option<Entry> {
    var parts := Split(line, ' ');
    if |parts| < 2 || Parsed(parts[0]).None? then None else Some(Entry(Parsed(parts[0]).value, parts[1]))
  }

  function NextEntry(before: Option<seq<Entry>>, e: Option<Entry>, current: Version): Option<seq<Entry>> {
    if before.None? || e.None? then None
    else if IsOlder(current, e.value.version) then Some(before.value + [e.value])
    else before
  }

  /** Once a line fails, the whole list has failed. */
  lemma {:induction false} NewerFails(lines: seq<string>, current: Version, n: nat)
    requires n <= |lines| && Newer(lines[..n], current).None?
    ensures Newer(lines, current).None?
  {
    if n == |lines| {
      assert lines[..n] == lines;
    } else {
      assert lines[..|lines| - 1][..n] == lines[..n];
      NewerFails(lines[..|lines| - 1], current, n);
    }
  }

  lemma NewerMore(lines: seq<string>, i: nat, found: seq<Entry>, entry: Option<Entry>, current: Version)
    requires i < |lines| && entry == LineEntry(lines[i])
    requires Newer(lines[..i], current) == Some(found) && AllRead(lines, i)
    ensures Newer(lines[..i + 1], current) == NextEntry(Some(found), entry, current)
    ensures entry.Some? ==> AllRead(lines, i + 1)
  {
    assert lines[..i + 1][..i] == lines[..i];
  }

  method ReadLine(line: string) returns (entry: Option<Entry>)
    requires LineOk(line)
    ensures entry == LineEntry(line)
  {
    var parts, _ := SplitBy(line, ' ');
    ghost var all := Split(line, ' ');
    assert parts[0] == all[0] && (|all| >= 2 ==> parts[1] == all[1]);
    var version := FromString(parts[0]);
    entry := if version.None? then None else Some(Entry(version.value, parts[1]));
  }

  /**
   * `rrc_versionsfile_get_necessary_urls_and_versions` and `rrc_versionsfile_parse_deleted_files`, which read
   * their lists alike. None is the corrupted-file error.
   */
  method NewerEntries(text: string, current: Version) returns (entries: Option<seq<Entry>>)
    requires ListOk(text)
    ensures entries == if |Split(text, '\n')| > SPLIT_LIMIT then None else Newer(Split(text, '\n'), current)
  {
    var lines, res := SplitBy(text, '\n');
    if res == 2 {
      return None;
    }
    var found := [];
    var i := 0;
    while i < |lines|
      invariant 0 <= i <= |lines|
      invariant Newer(lines[..i], current) == Some(found)
      invariant AllRead(lines, i)
    {
      var entry := ReadLine(lines[i]);
      NewerMore(lines, i, found, entry, current);
      if entry.None? {
        NewerFails(lines, current, i + 1);
        return None;
      }
      if IsOlder(current, entry.value.version) {
        found := found + [entry.value];
      }
      i := i + 1;
    }
    assert lines[..i] == lines;
    return Some(found);
  }

  // ---- The whole list, and its newer part ----

  /** What each line reads as. */
  function LineEntries(lines: seq<string>): (r: seq<Option<Entry>>)
    ensures |r| == |lines|
  {
    seq(|lines|, i requires 0 <= i < |lines| => LineEntry(lines[i]))
  }

  /** All values, or None when one is missing. */
  function Collected<T>(values: seq<Option<T>>): Option<seq<T>> {
    if values == [] then Some([])
    else
      var before, last := Collected(values[..|values| - 1]), values[|values| - 1];
      if before.None? || last.None? then None else Some(before.value + [last.value])
  }

  lemma {:induction false} CollectedIs<T>(values: seq<Option<T>>, ts: seq<T>)
    requires |values| == |ts| && forall i :: 0 <= i < |ts| ==> values[i] == Some(ts[i])
    ensures Collected(values) == Some(ts)
  {
    if values != [] {
      var n := |ts| - 1;
      CollectedIs(values[..n], ts[..n]);
      assert ts[..n] + [ts[n]] == ts;
    }
  }

  lemma {:induction false} CollectedHas<T>(values: seq<Option<T>>, t: T) returns (i: nat)
    requires Collected(values).Some? && t in Collected(values).value
    ensures i < |values| && values[i] == Some(t)
  {
    var n := |values| - 1;
    if values[n] == Some(t) {
      i := n;
    } else {
      i := CollectedHas(values[..n], t);
    }
  }

  /**
   * All entries of a list in file order, whatever else stands on their lines; None when some version does not parse.
   */
  function AllParsed(lines: seq<string>): Option<seq<Entry>> {
    Collected(LineEntries(lines))
  }

  function NewerOf(entries: seq<Entry>, current: Version): seq<Entry> {
    if entries == [] then []
    else
      var before := NewerOf(entries[..|entries| - 1], current);
      var e := entries[|entries| - 1];
      if IsOlder(current, e.version) then before + [e] else before
  }

  lemma NewerOfMore(entries: seq<Entry>, e: Entry, current: Version)
    ensures NewerOf(entries + [e], current)
              == if IsOlder(current, e.version) then NewerOf(entries, current) + [e] else NewerOf(entries, current)
  {
    assert (entries + [e])[..|entries|] == entries;
  }

  /** Reading and filtering line by line is reading everything and then filtering. */
  lemma {:induction false} NewerIsFiltered(lines: seq<string>, current: Version)
    ensures Newer(lines, current)
              == if AllParsed(lines).None? then None else Some(NewerOf(AllParsed(lines).value, current))
  {
    if lines != [] {
      var n := |lines| - 1;
      NewerIsFiltered(lines[..n], current);
      assert LineEntries(lines)[..n] == LineEntries(lines[..n]);
      if AllParsed(lines).Some? {
        NewerOfMore(AllParsed(lines[..n]).value, LineEntry(lines[n]).value, current);
      }
    }
  }

  lemma ParsedIsPrintable(lines: seq<string>, e: Entry)
    requires AllParsed(lines).Some? && e in AllParsed(lines).value
    ensures Printable(e.version)
  {
    var i := CollectedHas(LineEntries(lines), e);
    assert LineEntry(lines[i]) == Some(e);
    ParsedInRange(Split(lines[i], ' ')[0]);
  }

  // ---- Printed lists ----

  predicate EntryOk(e: Entry) {
    Printable(e.version) && e.text != [] && ' ' !in e.text && '\n' !in e.text
  }

  function PrintedLine(e: Entry): string
    requires EntryOk(e)
  {
    Printed(e.version) + " " + e.text
  }

  function PrintedList(entries: seq<Entry>): string
    requires forall e :: e in entries ==> EntryOk(e)
  {
    if entries == [] then [] else PrintedLine(entries[0]) + "\n" + PrintedList(entries[1..])
  }

  lemma PrintedHas(v: Version, c: char)
    requires !IsDigit(c) && c != '.' && c != '-'
    ensures c !in Printed(v)
  {
  }

  lemma PrintedLineSplits(e: Entry)
    requires EntryOk(e)
    ensures Split(PrintedLine(e), ' ') == [Printed(e.version), e.text] && '\n' !in PrintedLine(e)
  {
    PrintedHas(e.version, ' ');
    PrintedHas(e.version, '\n');
    SplitFirst(Printed(e.version), e.text, ' ');
    FirstIndexIs(e.text, ' ', |e.text|);
  }

  function PrintedLines(entries: seq<Entry>): (r: seq<string>)
    requires forall e :: e in entries ==> EntryOk(e)
    ensures |r| == |entries| && forall i :: 0 <= i < |r| ==> r[i] == PrintedLine(entries[i])
  {
    seq(|entries|, i requires 0 <= i < |entries| => PrintedLine(entries[i]))
  }

  lemma FirstLineSplits(e: Entry, rest: string)
    requires EntryOk(e)
    ensures Split(PrintedLine(e) + "\n" + rest, '\n') == [PrintedLine(e)] + Split(rest, '\n')
  {
    PrintedLineSplits(e);
    SplitFirst(PrintedLine(e), rest, '\n');
  }

  lemma {:induction false} PrintedListSplits(entries: seq<Entry>)
    requires forall e :: e in entries ==> EntryOk(e)
    ensures Split(PrintedList(entries), '\n') == PrintedLines(entries)
  {
    if entries != [] {
      PrintedListSplits(entries[1..]);
      assert PrintedLines(entries) == [PrintedLine(entries[0])] + PrintedLines(entries[1..]);
      FirstLineSplits(entries[0], PrintedList(entries[1..]));
    }
  }

  lemma PrintedLineParses(e: Entry)
    requires EntryOk(e)
    ensures LineEntry(PrintedLine(e)) == Some(e)
  {
    PrintedLineSplits(e);
    PrintedParses(e.version);
  }

  /** Line by line, the entries. */
  predicate ReadsAs(lines: seq<string>, entries: seq<Entry>) {
    |lines| == |entries| && forall i :: 0 <= i < |lines| ==> LineEntry(lines[i]) == Some(entries[i])
  }

  lemma ReadsAsParses(lines: seq<string>, entries: seq<Entry>)
    requires ReadsAs(lines, entries)
    ensures AllParsed(lines) == Some(entries)
  {
    CollectedIs(LineEntries(lines), entries);
  }

  /** A printed list reads as its entries. */
  lemma PrintedListReads(entries: seq<Entry>)
    requires forall e :: e in entries ==> EntryOk(e)
    ensures ReadsAs(Split(PrintedList(entries), '\n'), entries)
  {
    PrintedListSplits(entries);
    forall i | 0 <= i < |entries|
      ensures LineEntry(PrintedLine(entries[i])) == Some(entries[i])
    {
      PrintedLineParses(entries[i]);
    }
  }

  /** A printed list parses back to its entries. */
  lemma PrintedListParses(entries: seq<Entry>)
    requires forall e :: e in entries ==> EntryOk(e)
    ensures ListOk(PrintedList(entries))
    ensures |Split(PrintedList(entries), '\n')| == |entries|
    ensures AllParsed(Split(PrintedList(entries), '\n')) == Some(entries)
  {
    PrintedListReads(entries);
    ReadsAsParses(Split(PrintedList(entries), '\n'), entries);
  }

  /** Of a printed list, exactly the newer entries are selected, in file order, each with its own URL or path. */
  lemma NewerOfPrintedList(entries: seq<Entry>, current: Version)
    requires forall e :: e in entries ==> EntryOk(e)
    ensures ListOk(PrintedList(entries))
    ensures Newer(Split(PrintedList(entries), '\n'), current) == Some(NewerOf(entries, current))
  {
    PrintedListParses(entries);
    NewerIsFiltered(Split(PrintedList(entries), '\n'), current);
  }

  // ---- Filtering again from a later version ----

  predicate Ascending(entries: seq<Entry>) {
    forall i, j :: 0 <= i < j < |entries| ==> IsOlder(entries[i].version, entries[j].version)
  }

  lemma {:induction false} NewerOfMembers(entries: seq<Entry>, current: Version)
    ensures forall e :: e in NewerOf(entries, current) <==> e in entries && IsOlder(current, e.version)
  {
    if entries != [] {
      NewerOfMembers(entries[..|entries| - 1], current);
    }
  }

  /** Filtering from a later version is filtering what the earlier one selected. */
  lemma {:induction false} NewerOfTwice(entries: seq<Entry>, current: Version, later: Version)
    requires later == current || IsOlder(current, later)
    ensures NewerOf(entries, later) == NewerOf(NewerOf(entries, current), later)
  {
    if entries != [] {
      var n := |entries| - 1;
      NewerOfTwice(entries[..n], current, later);
      OlderIsStrictTotalOrder(current, later, entries[n].version);
      var before := NewerOf(entries[..n], current);
      if IsOlder(current, entries[n].version) {
        assert (before + [entries[n]])[..|before|] == before;
      }
    }
  }

  /** In an ascending list, what is newer than its entry `k` is what follows it. */
  lemma {:induction false} NewerThanEntry(entries: seq<Entry>, k: nat)
    requires Ascending(entries) && k < |entries|
    ensures NewerOf(entries, entries[k].version) == entries[k + 1..]
  {
    var n := |entries| - 1;
    if k < n {
      NewerThanEntry(entries[..n], k);
      assert entries[k + 1..] == entries[..n][k + 1..] + [entries[n]];
    } else {
      NoneNewer(entries, entries[k].version);
    }
  }

  lemma {:induction false} NoneNewer(entries: seq<Entry>, v: Version)
    requires forall i :: 0 <= i < |entries| ==> !IsOlder(v, entries[i].version)
    ensures NewerOf(entries, v) == []
  {
    if entries != [] {
      NoneNewer(entries[..|entries| - 1], v);
    }
  }

  /** `pending` is what one run selects; after any of its updates a fresh run selects exactly the rest. */
  ghost predicate ResumesExactly(entries: seq<Entry>, current: Version) {
    var pending := NewerOf(entries, current);
    forall k :: 0 <= k < |pending| ==> NewerOf(entries, pending[k].version) == pending[k + 1..]
  }

  /** That holds if and only if the selected entries are in strictly ascending order. */
  lemma ResumesExactlyIffAscending(entries: seq<Entry>, current: Version)
    ensures ResumesExactly(entries, current) <==> Ascending(NewerOf(entries, current))
  {
    var pending := NewerOf(entries, current);
    NewerOfMembers(entries, current);
    if Ascending(pending) {
      forall k | 0 <= k < |pending|
        ensures NewerOf(entries, pending[k].version) == pending[k + 1..]
      {
        assert pending[k] in pending;
        NewerOfTwice(entries, current, pending[k].version);
        NewerThanEntry(pending, k);
      }
    }
    if ResumesExactly(entries, current) {
      forall i, j | 0 <= i < j < |pending|
        ensures IsOlder(pending[i].version, pending[j].version)
      {
        NewerOfMembers(entries, pending[i].version);
        assert pending[i + 1..][j - i - 1] == pending[j];
        assert pending[j] in pending[i + 1..];
      }
    }
  }
}
