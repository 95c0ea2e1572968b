// source/settingsfile.c: the settings file.

module Settings {
  import opened CStrings
  import opened Bits
  import opened Memory

  const MAGIC: nat := 1920234103
  const VERSION: nat := 0
  const MAX_KEY: nat := 32

  datatype Settings = Settings(myStuff: u32, separateSavegame: u32, autoUpdate: u32)

  const DEFAULTS := Settings(0, 0, 1)

  /** The bytes of an ASCII key. */
  function KeyBytes(s: string): (r: seq<byte>)
    requires forall i :: 0 <= i < |s| ==> 0 < s[i] as int < 128
    ensures |r| == |s| && NoNul(r)
  {
    seq(|s|, i requires 0 <= i < |s| => s[i] as int)
  }

  predicate NoNul(key: seq<byte>) {
    forall i :: 0 <= i < |key| ==> key[i] != 0
  }

  const MY_STUFF_KEY: seq<byte> := KeyBytes("My Stuff")
  const SAVEGAME_KEY: seq<byte> := KeyBytes("Separate savegame")
  const AUTOUPDATE_KEY: seq<byte> := KeyBytes("Auto update")

  /** The C string in a key buffer: `strcmp` does not look past a NUL. */
  function UpToNul(key: seq<byte>): seq<byte> {
    if key == [] || key[0] == 0 then [] else [key[0]] + UpToNul(key[1..])
  }

  datatype Field = MyStuff | SeparateSavegame | AutoUpdate | NoField

  function FieldOf(key: seq<byte>): Field {
    var k := UpToNul(key);
    if k == MY_STUFF_KEY then MyStuff
    else if k == SAVEGAME_KEY then SeparateSavegame
    else if k == AUTOUPDATE_KEY then AutoUpdate
    else NoField
  }

  function Assigned(s: Settings, key: seq<byte>, value: u32): Settings {
    match FieldOf(key)
    case MyStuff => s.(myStuff := value)
    case SeparateSavegame => s.(separateSavegame := value)
    case AutoUpdate => s.(autoUpdate := value)
    case NoField => s
  }

  /** A big-endian word at `pos`, if the file has one there. */
  function ReadU32(file: seq<byte>, pos: nat): Option<u32> {
    if pos + 4 > |file| then None else Some(BigEndian(file[pos], file[pos + 1], file[pos + 2], file[pos + 3]))
  }

  /** What parsing gives: the settings as assigned so far, whether it succeeded, and where it stopped reading. */
  datatype Outcome = Outcome(settings: Settings, ok: bool, end: nat)

  datatype EntryRead = Bad | Entry(key: seq<byte>, value: u32, end: nat)

  /** One entry: key length below 32, key, a value length of 4, and the value. */
  function ReadEntry(file: seq<byte>, pos: nat): EntryRead {
    var keyLength := ReadU32(file, pos);
    if keyLength.None? || keyLength.value >= MAX_KEY || pos + 4 + keyLength.value > |file| then Bad
    else
      var at := pos + 4 + keyLength.value;
      var valueLength, value := ReadU32(file, at), ReadU32(file, at + 4);
      if valueLength != Some(4) || value.None? then Bad
      else Entry(file[pos + 4..at], value.value, at + 8)
  }

  function ReadEntries(file: seq<byte>, pos: nat, count: nat, s: Settings): Outcome
    decreases count
  {
    if count == 0 then Outcome(s, true, pos)
    else
      match ReadEntry(file, pos)
      case Bad => Outcome(s, false, pos)
      case Entry(key, value, end) => ReadEntries(file, end, count - 1, Assigned(s, key, value))
  }

  function Parsed(file: seq<byte>): Outcome {
    var count := ReadU32(file, 8);
    if ReadU32(file, 0) != Some(MAGIC) || ReadU32(file, 4).None? || count.None? then Outcome(DEFAULTS, false, 0)
    else ReadEntries(file, 12, count.value, DEFAULTS)
  }

  lemma BadEntry(file: seq<byte>, pos: nat, count: nat, s: Settings)
    requires count > 0 && ReadEntry(file, pos).Bad?
    ensures ReadEntries(file, pos, count, s) == Outcome(s, false, pos)
  {
  }

  lemma OneEntry(file: seq<byte>, pos: nat, count: nat, s: Settings, key: seq<byte>, value: u32, end: nat,
                 next: Settings)
    requires count > 0 && ReadEntry(file, pos) == Entry(key, value, end) && next == Assigned(s, key, value)
    ensures ReadEntries(file, pos, count, s) == ReadEntries(file, end, count - 1, next)
  {
  }

  /** The header, then the entries: fields assigned before an error stay assigned. */
  method ParseBytes(bytes: seq<byte>) returns (settings: Settings, ok: bool)
    ensures settings == Parsed(bytes).settings && ok == Parsed(bytes).ok
  {
    settings := DEFAULTS;
    ok := false;
    var magic := ReadU32(bytes, 0);
    if magic != Some(MAGIC) {
      return;
    }
    var version := ReadU32(bytes, 4);
    if version.None? {
      return;
    }
    var entryCount := ReadU32(bytes, 8);
    if entryCount.None? {
      return;
    }
    settings, ok := ParseEntries(bytes, entryCount.value);
  }

  method ParseEntries(bytes: seq<byte>, entryCount: nat) returns (settings: Settings, ok: bool)
    ensures settings == ReadEntries(bytes, 12, entryCount, DEFAULTS).settings
    ensures ok == ReadEntries(bytes, 12, entryCount, DEFAULTS).ok
  {
    settings, ok := DEFAULTS, true;
    ghost var whole := ReadEntries(bytes, 12, entryCount, DEFAULTS);
    var i, pos := 0, 12;
    while ok && i < entryCount
      invariant 0 <= i <= entryCount
      invariant if ok then whole == ReadEntries(bytes, pos, entryCount - i, settings)
                else whole.settings == settings && !whole.ok
      decreases entryCount - i, ok
    {
      ok, settings, pos := ParseEntry(bytes, pos, entryCount - i, settings);
      i := if ok then i + 1 else i;
    }
  }

  /** One round of the reading loop. */
  method ParseEntry(bytes: seq<byte>, pos: nat, ghost count: nat, settings: Settings)
    returns (ok: bool, next: Settings, end: nat)
    requires count > 0
    ensures var whole := ReadEntries(bytes, pos, count, settings);
            if ok then whole == ReadEntries(bytes, end, count - 1, next) else whole.settings == next && !whole.ok
  {
    var entry := ReadEntry(bytes, pos);
    if entry.Bad? {
      BadEntry(bytes, pos, count, settings);
      return false, settings, pos;
    }
    ok, next, end := true, Assigned(settings, entry.key, entry.value), entry.end;
    OneEntry(bytes, pos, count, settings, entry.key, entry.value, end, next);
  }

  // ---- The file on the card ----

  function U32(v: u32): seq<byte> { WordBytes(v) }

  function HeaderBytes(count: u32): seq<byte> {
    U32(MAGIC) + U32(VERSION) + U32(count)
  }

  function EntryBytes(key: seq<byte>, value: u32): seq<byte>
    requires |key| < WORD
  {
    U32(|key|) + (key + (U32(4) + U32(value)))
  }

  /** As much of the bytes as a card accepts that takes `n` of them. */
  function Cut(bytes: seq<byte>, n: nat): seq<byte> {
    if |bytes| <= n then bytes else bytes[..n]
  }

  function Left(bytes: seq<byte>, n: nat): nat {
    if |bytes| <= n then n - |bytes| else 0
  }

  lemma CutMore(done: seq<byte>, more: seq<byte>, total: nat)
    ensures Cut(done + more, total) == Cut(done, total) + Cut(more, Left(done, total))
    ensures Left(done + more, total) == Left(more, Left(done, total))
  {
  }

  /** Past the end of the card nothing more arrives. */
  lemma CutFull(done: seq<byte>, more: seq<byte>, total: nat)
    requires |done| > total
    ensures Cut(done + more, total) == Cut(done, total) && Left(done + more, total) == Left(done, total) == 0
  {
  }

  class SettingsFile {
    /** The file's bytes; None while it does not exist. */
    var file: Option<seq<byte>>
    /** How many more bytes the card takes. */
    var room: nat

    constructor ()
      ensures file == None
    {
      file, room := None, 0;
    }

    /** Of the bytes meant to be written since `total` fitted, those are in the file that fit. */
    predicate Holds(done: seq<byte>, total: nat)
      reads this
    {
      file == Some(Cut(done, total)) && room == Left(done, total)
    }

    /** `fwrite`: writes what fits, and succeeds if that is everything. */
    method Put(bytes: seq<byte>, ghost done: seq<byte>, ghost total: nat) returns (ok: bool)
      requires Holds(done, total)
      modifies this
      ensures Holds(done + bytes, total) && (ok <==> |bytes| <= old(room))
    {
      CutMore(done, bytes, total);
      ok := |bytes| <= room;
      file := Some(file.value + Cut(bytes, room));
      room := Left(bytes, room);
    }

    /** `rrc_settingsfile_write_header` */
    method WriteHeader(count: u32, ghost total: nat) returns (ok: bool)
      requires Holds([], total)
      modifies this
      ensures Holds(HeaderBytes(count), total) && (ok <==> |HeaderBytes(count)| <= total)
    {
      ghost var one, two := [] + U32(MAGIC), U32(MAGIC) + U32(VERSION);
      assert one == U32(MAGIC);
      ok := Put(U32(MAGIC), [], total);
      if !ok {
        CutFull(U32(MAGIC), U32(VERSION) + U32(count), total);
        assert HeaderBytes(count) == U32(MAGIC) + (U32(VERSION) + U32(count));
        return;
      }
      ok := Put(U32(VERSION), U32(MAGIC), total);
      if !ok {
        CutFull(two, U32(count), total);
        return;
      }
      ok := Put(U32(count), two, total);
    }

    /** `rrc_settingsfile_set_option`: four writes, each of which may be the last. */
    method SetOption(key: seq<byte>, value: u32, ghost done: seq<byte>, ghost total: nat) returns (ok: bool)
      requires |key| < WORD && Holds(done, total)
      modifies this
      ensures Holds(done + EntryBytes(key, value), total) && (ok <==> |done + EntryBytes(key, value)| <= total)
    {
      ghost var rest3, rest2 := U32(4) + U32(value), key + (U32(4) + U32(value));
      ghost var d1 := done + U32(|key|);
      ghost var d2 := d1 + key;
      ghost var d3 := d2 + U32(4);
      EntryInSteps(key, value, done);
      ok := Put(U32(|key|), done, total);
      if !ok {
        CutFull(d1, rest2, total);
        return;
      }
      ok := Put(key, d1, total);
      if !ok {
        CutFull(d2, rest3, total);
        return;
      }
      ok := Put(U32(4), d2, total);
      if !ok {
        CutFull(d3, U32(value), total);
        return;
      }
      ok := Put(U32(value), d3, total);
    }

    /**
     * `rrc_settingsfile_store`: opening the file empties it, and the result of writing the header is not looked at.
     * What does not succeed leaves a file that parsing rejects.
     */
    method Store(settings: Settings, opens: bool, total: nat) returns (ok: bool)
      modifies this
      ensures ok <==> opens && |Stored(settings)| <= total
      ensures file == if opens then Some(Cut(Stored(settings), total)) else old(file)
      ensures opens && !ok ==> !Parsed(file.value).ok
    {
      if !opens {
        return false;
      }
      StoredInSteps(settings);
      file, room := Some([]), total;
      var _ := WriteHeader(3, total);
      ghost var done := HeaderBytes(3);
      ok := SetOption(MY_STUFF_KEY, settings.myStuff, done, total);
      ghost var d1 := done + EntryBytes(MY_STUFF_KEY, settings.myStuff);
      ghost var d2 := d1 + EntryBytes(SAVEGAME_KEY, settings.separateSavegame);
      if ok {
        ok := SetOption(SAVEGAME_KEY, settings.separateSavegame, d1, total);
        if ok {
          ok := SetOption(AUTOUPDATE_KEY, settings.autoUpdate, d2, total);
        } else {
          CutFull(d2, EntryBytes(AUTOUPDATE_KEY, settings.autoUpdate), total);
        }
      } else {
        CutFull(d1, EntryBytes(SAVEGAME_KEY, settings.separateSavegame), total);
        CutFull(d2, EntryBytes(AUTOUPDATE_KEY, settings.autoUpdate), total);
      }
      if !ok {
        TruncatedFileRejected(settings, total);
      }
    }

    /**
     * `rrc_settingsfile_parse`: a missing file is created first, with no entries. `readable`, `creatable` and
     * `reopens` are the outcomes of opening it; settings are the defaults wherever nothing else was read.
     */
    method Parse(readable: bool, creatable: bool, reopens: bool, total: nat) returns (settings: Settings, ok: bool)
      modifies this
      ensures file == if old(file).Some? then old(file)
                      else if creatable then Some(Cut(HeaderBytes(0), total)) else None
      ensures var canRead := if old(file).Some? then readable else creatable && reopens;
              if canRead then settings == Parsed(file.value).settings && ok == Parsed(file.value).ok
              else settings == DEFAULTS && !ok
    {
      settings, ok := DEFAULTS, false;
      if file.None? {
        if !creatable {
          return;
        }
        file, room := Some([]), total;
        var _ := WriteHeader(0, total);
        if !reopens {
          return;
        }
      } else if !readable {
        return;
      }
      settings, ok := ParseBytes(file.value);
    }
  }

  lemma EntryInSteps(key: seq<byte>, value: u32, done: seq<byte>)
    requires |key| < WORD
    ensures done + EntryBytes(key, value) == done + U32(|key|) + (key + (U32(4) + U32(value)))
    ensures done + EntryBytes(key, value) == done + U32(|key|) + key + (U32(4) + U32(value))
    ensures done + EntryBytes(key, value) == done + U32(|key|) + key + U32(4) + U32(value)
  {
    var fields := U32(4) + U32(value);
    Regroup(done, U32(|key|), key + fields);
    Regroup(done + U32(|key|), key, fields);
    Regroup(done + U32(|key|) + key, U32(4), U32(value));
  }

  // ---- Well-formed files ----

  /** One key with its value, as a file lists them. */
  datatype KeyValue = KeyValue(key: seq<byte>, value: u32)

  predicate OptionOk(o: KeyValue) { |o.key| < MAX_KEY }

  function OptionsBytes(options: seq<KeyValue>): seq<byte>
    requires forall o :: o in options ==> OptionOk(o)
  {
    if options == [] then []
    else
      assert OptionOk(options[0]);
      EntryBytes(options[0].key, options[0].value) + OptionsBytes(options[1..])
  }

  function AllAssigned(s: Settings, options: seq<KeyValue>): Settings
    decreases options
  {
    if options == [] then s else AllAssigned(Assigned(s, options[0].key, options[0].value), options[1..])
  }

  function StoredOptions(s: Settings): seq<KeyValue> {
    [KeyValue(MY_STUFF_KEY, s.myStuff), KeyValue(SAVEGAME_KEY, s.separateSavegame),
     KeyValue(AUTOUPDATE_KEY, s.autoUpdate)]
  }

  function Stored(s: Settings): seq<byte> {
    HeaderBytes(3) + OptionsBytes(StoredOptions(s))
  }

  lemma StoredInSteps(s: Settings)
    ensures Stored(s) == HeaderBytes(3) + EntryBytes(MY_STUFF_KEY, s.myStuff)
                           + EntryBytes(SAVEGAME_KEY, s.separateSavegame) + EntryBytes(AUTOUPDATE_KEY, s.autoUpdate)
  {
    var o := StoredOptions(s);
    assert o[1..][1..][1..] == [];
    assert OptionsBytes(o[1..][1..]) == EntryBytes(o[2].key, o[2].value) + [];
    assert OptionsBytes(o[1..]) == EntryBytes(o[1].key, o[1].value) + OptionsBytes(o[1..][1..]);
  }

  lemma WordReadsBack(file: seq<byte>, pos: nat, v: u32, rest: seq<byte>)
    requires pos <= |file| && file[pos..] == U32(v) + rest
    ensures ReadU32(file, pos) == Some(v) && file[pos + 4..] == rest
  {
    BigEndianOfWordBytes(v);
    SplitOff(file, pos, U32(v), rest);
    var b := file[pos..pos + 4];
    assert b[0] == file[pos] && b[1] == file[pos + 1] && b[2] == file[pos + 2] && b[3] == file[pos + 3];
  }

  lemma SplitOff(file: seq<byte>, pos: nat, first: seq<byte>, rest: seq<byte>)
    requires pos <= |file| && file[pos..] == first + rest
    ensures pos + |first| <= |file| && file[pos..pos + |first|] == first && file[pos + |first|..] == rest
  {
    var n := |first|;
    assert |file| - pos == n + |rest|;
    assert file[pos..pos + n] == file[pos..][..n] && file[pos + n..] == file[pos..][n..];
    assert (first + rest)[..n] == first && (first + rest)[n..] == rest;
  }

  lemma EntryReadsBack(file: seq<byte>, pos: nat, key: seq<byte>, value: u32, rest: seq<byte>)
    requires |key| < MAX_KEY && pos <= |file| && file[pos..] == EntryBytes(key, value) + rest
    ensures ReadEntry(file, pos) == Entry(key, value, pos + 12 + |key|)
    ensures pos + 12 + |key| <= |file| && file[pos + 12 + |key|..] == rest
  {
    var values, at := U32(4) + (U32(value) + rest), pos + 4 + |key|;
    assert EntryBytes(key, value) + rest == U32(|key|) + (key + values);
    KeyReadsBack(file, pos, key, values);
    ValueReadsBack(file, at, value, rest);
    EntryIs(file, pos, key, value, at);
  }

  lemma KeyReadsBack(file: seq<byte>, pos: nat, key: seq<byte>, rest: seq<byte>)
    requires |key| < WORD && pos <= |file| && file[pos..] == U32(|key|) + (key + rest)
    ensures ReadU32(file, pos) == Some(|key|)
    ensures pos + 4 + |key| <= |file| && file[pos + 4..pos + 4 + |key|] == key && file[pos + 4 + |key|..] == rest
  {
    WordReadsBack(file, pos, |key|, key + rest);
    SplitOff(file, pos + 4, key, rest);
  }

  lemma ValueReadsBack(file: seq<byte>, at: nat, value: u32, rest: seq<byte>)
    requires at <= |file| && file[at..] == U32(4) + (U32(value) + rest)
    ensures ReadU32(file, at) == Some(4) && ReadU32(file, at + 4) == Some(value) && at + 8 <= |file|
            && file[at + 8..] == rest
  {
    WordReadsBack(file, at, 4, U32(value) + rest);
    WordReadsBack(file, at + 4, value, rest);
  }

  lemma EntryIs(file: seq<byte>, pos: nat, key: seq<byte>, value: u32, at: nat)
    requires |key| < MAX_KEY && at == pos + 4 + |key| && at <= |file| && file[pos + 4..at] == key
    requires ReadU32(file, pos) == Some(|key|) && ReadU32(file, at) == Some(4) && ReadU32(file, at + 4) == Some(value)
    ensures ReadEntry(file, pos) == Entry(key, value, at + 8)
  {
  }

  lemma FirstEntry(options: seq<KeyValue>, rest: seq<byte>)
    requires options != [] && forall o :: o in options ==> OptionOk(o)
    ensures OptionOk(options[0])
    ensures OptionsBytes(options) + rest
              == EntryBytes(options[0].key, options[0].value) + (OptionsBytes(options[1..]) + rest)
  {
    assert OptionOk(options[0]);
  }

  lemma FirstAssigned(s: Settings, options: seq<KeyValue>, next: Settings)
    requires options != [] && next == Assigned(s, options[0].key, options[0].value)
    ensures AllAssigned(s, options) == AllAssigned(next, options[1..])
  {
  }

  /** Whatever follows the entries, reading them assigns them in order and stops right behind them. */
  lemma {:induction false} EntriesReadBack(file: seq<byte>, pos: nat, options: seq<KeyValue>, rest: seq<byte>,
                                           s: Settings)
    requires forall o :: o in options ==> OptionOk(o)
    requires pos <= |file| && file[pos..] == OptionsBytes(options) + rest
    ensures ReadEntries(file, pos, |options|, s) == Outcome(AllAssigned(s, options), true, |file| - |rest|)
    decreases options
  {
    if options == [] {
      assert |file[pos..]| == |rest|;
    } else {
      var o, tail := options[0], OptionsBytes(options[1..]) + rest;
      FirstEntry(options, rest);
      EntryReadsBack(file, pos, o.key, o.value, tail);
      var end, next := pos + 12 + |o.key|, Assigned(s, o.key, o.value);
      OneEntry(file, pos, |options|, s, o.key, o.value, end, next);
      EntriesReadBack(file, end, options[1..], rest, next);
      FirstAssigned(s, options, next);
    }
  }

  /** A file with the magic, any format version, the right count and those entries. */
  function FileBytes(version: u32, options: seq<KeyValue>, rest: seq<byte>): seq<byte>
    requires |options| < WORD && forall o :: o in options ==> OptionOk(o)
  {
    U32(MAGIC) + (U32(version) + (U32(|options|) + (OptionsBytes(options) + rest)))
  }

  lemma FileParses(version: u32, options: seq<KeyValue>, rest: seq<byte>)
    requires |options| < WORD && forall o :: o in options ==> OptionOk(o)
    ensures var file := FileBytes(version, options, rest);
            Parsed(file) == Outcome(AllAssigned(DEFAULTS, options), true, |file| - |rest|)
  {
    var file := FileBytes(version, options, rest);
    var entries := OptionsBytes(options) + rest;
    assert file[0..] == file;
    WordReadsBack(file, 0, MAGIC, U32(version) + (U32(|options|) + entries));
    WordReadsBack(file, 4, version, U32(|options|) + entries);
    WordReadsBack(file, 8, |options|, entries);
    EntriesReadBack(file, 12, options, rest, DEFAULTS);
  }

  /** The value of the last entry for this field, or the default. */
  function LastValue(options: seq<KeyValue>, field: Field, default_: u32): u32 {
    if options == [] then default_
    else
      var last := options[|options| - 1];
      if FieldOf(last.key) == field then last.value else LastValue(options[..|options| - 1], field, default_)
  }

  lemma {:induction false} AssignedLast(s: Settings, options: seq<KeyValue>, o: KeyValue)
    ensures AllAssigned(s, options + [o]) == Assigned(AllAssigned(s, options), o.key, o.value)
    decreases options
  {
    if options == [] {
      assert ([] + [o])[1..] == [];
    } else {
      assert (options + [o])[1..] == options[1..] + [o];
      AssignedLast(Assigned(s, options[0].key, options[0].value), options[1..], o);
    }
  }

  lemma KeysDiffer()
    ensures MY_STUFF_KEY != SAVEGAME_KEY && MY_STUFF_KEY != AUTOUPDATE_KEY && SAVEGAME_KEY != AUTOUPDATE_KEY
  {
    assert |MY_STUFF_KEY| == 8 && |SAVEGAME_KEY| == 17 && |AUTOUPDATE_KEY| == 11;
  }

  lemma {:induction false} AssignedIsLastValue(options: seq<KeyValue>)
    ensures AllAssigned(DEFAULTS, options) ==
            Settings(LastValue(options, MyStuff, DEFAULTS.myStuff),
                     LastValue(options, SeparateSavegame, DEFAULTS.separateSavegame),
                     LastValue(options, AutoUpdate, DEFAULTS.autoUpdate))
  {
    if options != [] {
      var n := |options| - 1;
      AssignedIsLastValue(options[..n]);
      AssignedLast(DEFAULTS, options[..n], options[n]);
      assert options[..n] + [options[n]] == options;
    }
  }

  /**
   * A well-formed file gives the last value of each known key, the default where there is none, and ignores the rest.
   */
  lemma WellFormedFileGivesLastValues(version: u32, options: seq<KeyValue>, rest: seq<byte>)
    requires |options| < WORD && forall o :: o in options ==> OptionOk(o)
    ensures var outcome := Parsed(FileBytes(version, options, rest));
            && outcome.ok
            && outcome.settings == Settings(LastValue(options, MyStuff, 0), LastValue(options, SeparateSavegame, 0),
                                            LastValue(options, AutoUpdate, 1))
  {
    FileParses(version, options, rest);
    AssignedIsLastValue(options);
  }

  lemma {:induction false} NoNulInKey(key: seq<byte>)
    requires NoNul(key)
    ensures UpToNul(key) == key
  {
    if key != [] {
      NoNulInKey(key[1..]);
    }
  }

  lemma KnownKeys()
    ensures FieldOf(MY_STUFF_KEY) == MyStuff && FieldOf(SAVEGAME_KEY) == SeparateSavegame
            && FieldOf(AUTOUPDATE_KEY) == AutoUpdate
  {
    KeysDiffer();
    NoNulInKey(MY_STUFF_KEY);
    NoNulInKey(SAVEGAME_KEY);
    NoNulInKey(AUTOUPDATE_KEY);
  }

  lemma ThreeAssigned(s: Settings, a: KeyValue, b: KeyValue, c: KeyValue)
    ensures AllAssigned(s, [a, b, c]) == Assigned(Assigned(Assigned(s, a.key, a.value), b.key, b.value), c.key, c.value)
  {
    var s1 := Assigned(s, a.key, a.value);
    var s2 := Assigned(s1, b.key, b.value);
    FirstAssigned(s, [a, b, c], s1);
    FirstAssigned(s1, [b, c], s2);
    FirstAssigned(s2, [c], Assigned(s2, c.key, c.value));
    assert [a, b, c][1..] == [b, c] && [b, c][1..] == [c];
  }

  lemma StoredOptionsAssigned(s: Settings)
    ensures AllAssigned(DEFAULTS, StoredOptions(s)) == s
  {
    KnownKeys();
    var a, b, c := KeyValue(MY_STUFF_KEY, s.myStuff), KeyValue(SAVEGAME_KEY, s.separateSavegame),
        KeyValue(AUTOUPDATE_KEY, s.autoUpdate);
    assert StoredOptions(s) == [a, b, c];
    ThreeAssigned(DEFAULTS, a, b, c);
    var first := Assigned(DEFAULTS, a.key, a.value);
    assert first == DEFAULTS.(myStuff := s.myStuff);
    var second := Assigned(first, b.key, b.value);
    assert second == first.(separateSavegame := s.separateSavegame);
    assert Assigned(second, c.key, c.value) == second.(autoUpdate := s.autoUpdate);
  }

  lemma StoredIsFileBytes(s: Settings)
    ensures forall o :: o in StoredOptions(s) ==> OptionOk(o)
    ensures Stored(s) == FileBytes(VERSION, StoredOptions(s), [])
  {
    var entries := OptionsBytes(StoredOptions(s));
    assert entries + [] == entries;
    Regroup(U32(MAGIC), U32(VERSION), U32(3) + entries);
    Regroup(U32(MAGIC) + U32(VERSION), U32(3), entries);
  }

  /** Storing and parsing is the identity. */
  lemma StoredFileParses(s: Settings)
    ensures Parsed(Stored(s)) == Outcome(s, true, |Stored(s)|)
  {
    var options := StoredOptions(s);
    StoredIsFileBytes(s);
    FileParses(VERSION, options, []);
    StoredOptionsAssigned(s);
  }

  // ---- Truncated files ----

  /** A prefix that still reads does so without looking behind its end, so the whole file reads the same. */
  lemma {:induction false} PrefixReadsSame(file: seq<byte>, n: nat, pos: nat, count: nat, s: Settings)
    requires n <= |file| && pos <= n && ReadEntries(file[..n], pos, count, s).ok
    ensures ReadEntries(file, pos, count, s) == ReadEntries(file[..n], pos, count, s)
    ensures ReadEntries(file, pos, count, s).end <= n
    decreases count
  {
    if count > 0 {
      EntryReadsSame(file, n, pos);
      var entry := ReadEntry(file, pos);
      PrefixReadsSame(file, n, entry.end, count - 1, Assigned(s, entry.key, entry.value));
    }
  }

  lemma EntryReadsSame(file: seq<byte>, n: nat, pos: nat)
    requires n <= |file| && ReadEntry(file[..n], pos).Entry?
    ensures ReadEntry(file, pos) == ReadEntry(file[..n], pos) && ReadEntry(file, pos).end <= n
  {
    var at := pos + 4 + ReadU32(file, pos).value;
    assert ReadU32(file[..n], pos) == ReadU32(file, pos);
    assert ReadU32(file[..n], at) == ReadU32(file, at) && ReadU32(file[..n], at + 4) == ReadU32(file, at + 4);
    assert file[..n][pos + 4..at] == file[pos + 4..at];
  }

  /** Every strict prefix of a stored file is rejected. */
  lemma TruncatedFileRejected(s: Settings, n: nat)
    requires n < |Stored(s)|
    ensures !Parsed(Stored(s)[..n]).ok
  {
    var file := Stored(s);
    StoredFileParses(s);
    if Parsed(file[..n]).ok {
      var count := ReadU32(file[..n], 8).value;
      assert ReadU32(file, 8) == Some(count) && ReadU32(file, 0) == ReadU32(file[..n], 0);
      PrefixReadsSame(file, n, 12, count, DEFAULTS);
    }
  }
}
