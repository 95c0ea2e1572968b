// runtime-ext/source/dvd.c, lines 113-217: finding the replacement for a disc path.

module DvdLookup {
  import opened CStrings
  import opened PatchLoader

  /** The packed tables the game side reads. */
  datatype RiivoDisc = RiivoDisc(sdFiles: seq<CString>, byName: seq<Replacement>, full: seq<Replacement>)

  predicate SortedByHash(table: seq<Replacement>) {
    forall i, j :: 0 <= i < j < |table| ==> table[i].hash <= table[j].hash
  }

  /** A replacement answers a query when the hashes agree and the texts agree up to case. */
  predicate Answers(r: Replacement, hash: u32, name: CString) {
    r.hash == hash && Lower(r.disc) == Lower(name)
  }

  /** The specification of the search: the entry number of the first answer, whatever the order of the table. */
  function FirstAnswer(table: seq<Replacement>, hash: u32, name: CString): (r: Option<nat>)
    ensures r.None? ==> forall x :: x in table ==> !Answers(x, hash, name)
    ensures r.Some? ==> exists x :: x in table && Answers(x, hash, name) && x.entrynum == r.value
  {
    if table == [] then None
    else if Answers(table[0], hash, name) then Some(table[0].entrynum)
    else FirstAnswer(table[1..], hash, name)
  }

  lemma {:induction false} FirstAnswerFrom(table: seq<Replacement>, hash: u32, name: CString, k: nat)
    requires k <= |table|
    requires forall i :: 0 <= i < k ==> !Answers(table[i], hash, name)
    ensures FirstAnswer(table, hash, name) == FirstAnswer(table[k..], hash, name)
  {
    if k == 0 {
      assert table[k..] == table;
    } else {
      FirstAnswerFrom(table[1..], hash, name, k - 1);
      assert table[1..][k - 1..] == table[k..];
    }
  }

  /** Binary search with a walk back: the leftmost index of the hash, or -1 exactly when it does not occur. */
  method SearchReplacementByHash(hash: u32, replacements: seq<Replacement>) returns (index: int)
    requires SortedByHash(replacements)
    ensures -1 <= index < |replacements|
    ensures index == -1 ==> forall i :: 0 <= i < |replacements| ==> replacements[i].hash != hash
    ensures index != -1 ==> replacements[index].hash == hash
    ensures index != -1 ==> forall i :: 0 <= i < index ==> replacements[i].hash < hash
  {
    var start, end := 0, |replacements|;
    while start < end
      invariant 0 <= start <= end <= |replacements|
      invariant forall i :: 0 <= i < start ==> replacements[i].hash < hash
      invariant forall i :: end <= i < |replacements| ==> hash < replacements[i].hash
      decreases end - start
    {
      var mid := (start + end) / 2;
      var midHash := replacements[mid].hash;
      if midHash == hash {
        while mid > 0 && replacements[mid - 1].hash == hash
          invariant 0 <= mid < |replacements| && replacements[mid].hash == hash
          decreases mid
        {
          mid := mid - 1;
        }
        return mid;
      } else if midHash < hash {
        start := mid + 1;
      } else {
        end := mid;
      }
    }
    return -1;
  }

  /** Looks at the whole run of equal hashes: finds exactly what a scan of the full table would find. */
  method SearchReplacement(hash: u32, filename: CString, replacements: seq<Replacement>)
    returns (entryNum: Option<nat>)
    requires SortedByHash(replacements)
    ensures entryNum == FirstAnswer(replacements, hash, filename)
  {
    var index := SearchReplacementByHash(hash, replacements);
    if index != -1 {
      var i := index;
      while i < |replacements| && replacements[i].hash == hash
        invariant index <= i <= |replacements|
        invariant forall j :: 0 <= j < i ==> !Answers(replacements[j], hash, filename)
      {
        var cmp := StrCiCmp(replacements[i].disc, filename);
        if cmp == 0 {
          FirstAnswerFrom(replacements, hash, filename, i);
          return Some(replacements[i].entrynum);
        }
        i := i + 1;
      }
      assert forall j :: i <= j < |replacements| ==> !Answers(replacements[j], hash, filename);
    }
    FirstAnswerFrom(replacements, hash, filename, |replacements|);
    return None;
  }

  /** At most one leading slash is dropped. */
  function Stripped(path: CString): CString {
    if path != [] && path[0] == '/' then path[1..] else path
  }

  /** The text after the last slash (`strrchr`), or all of it. */
  function LastSegment(path: CString): CString {
    if path == [] || path[|path| - 1] == '/' then []
    else LastSegment(path[..|path| - 1]) + [path[|path| - 1]]
  }

  function Resolved(disc: RiivoDisc, path: CString): Option<nat> {
    var filename := Stripped(path);
    var segment := LastSegment(filename);
    var byName := FirstAnswer(disc.byName, Hash(Lower(segment)), segment);
    if byName.Some? then byName else FirstAnswer(disc.full, Hash(Lower(filename)), filename)
  }

  /** `rte_dvd_resolve_path_to_entry_num`: the file-name table first, then the full-path table. */
  method ResolvePathToEntryNum(disc: RiivoDisc, path: CString) returns (entryNum: Option<nat>)
    requires SortedByHash(disc.byName) && SortedByHash(disc.full)
    ensures entryNum == Resolved(disc, path)
  {
    var filename := if path != [] && path[0] == '/' then path[1..] else path;
    var segment := LastSegment(filename);
    var fullHash := HashStringLowercase(filename);
    var filenameHash := HashStringLowercase(segment);
    entryNum := SearchReplacement(filenameHash, segment, disc.byName);
    if entryNum.None? {
      entryNum := SearchReplacement(fullHash, filename, disc.full);
    }
  }

  lemma {:induction false} LastSegmentOfLower(path: CString)
    ensures LastSegment(Lower(path)) == Lower(LastSegment(path))
  {
    if path != [] && path[|path| - 1] != '/' {
      LastSegmentOfLower(path[..|path| - 1]);
      assert Lower(path)[..|path| - 1] == Lower(path[..|path| - 1]);
    }
  }
}
