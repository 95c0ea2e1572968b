// source/settingsfile.c, lines 28-44 and 51-55: the settings file on the card, byte by byte.

/** What a stored file holds and which files are read, with the format's numbers and keys written out. */
module SettingsLaws {
  import opened CStrings
  import opened Bits
  import opened Settings
  import opened Memory

  /** A word's bytes, the highest first. */
  function Big(v: u32): seq<int> {
    [v / 0x100_0000, v / 0x1_0000 % 0x100, v / 0x100 % 0x100, v % 0x100]
  }

  /** An ASCII text's bytes. */
  function Bytes(s: string): seq<int> {
    seq(|s|, i requires 0 <= i < |s| => s[i] as int)
  }

  lemma HeaderIs(count: u32)
    ensures HeaderBytes(count) == Bytes("rtrw") + Big(0) + Big(count)
  {
    assert U32(0x7274_7277) == [0x72, 0x74, 0x72, 0x77] == Bytes("rtrw");
  }

  lemma EntryIsLaidOut(key: seq<byte>, value: u32)
    requires |key| < WORD
    ensures EntryBytes(key, value) == Big(|key|) + key + Big(4) + Big(value)
  {
    var a, b, c: seq<int> := U32(|key|), U32(4), U32(value);
    assert a + (key + (b + c)) == a + key + b + c;
  }

  lemma KeysAre()
    ensures MY_STUFF_KEY == Bytes("My Stuff") && SAVEGAME_KEY == Bytes("Separate savegame")
    ensures AUTOUPDATE_KEY == Bytes("Auto update")
  {
  }

  /** One entry with its value, as storing writes it. */
  function Line(key: string, value: u32): seq<int>
    requires |key| < WORD
  {
    Big(|key|) + Bytes(key) + Big(4) + Big(value)
  }

  lemma LineIs(bytes: seq<byte>, key: string, value: u32)
    requires |key| < WORD && bytes == Bytes(key)
    ensures EntryBytes(bytes, value) == Line(key, value)
  {
    EntryIsLaidOut(bytes, value);
  }

  /** A stored file: magic, version, three entries, and each with its key, the value's length and the value. */
  lemma StoredIs(s: Settings)
    ensures Stored(s) == Bytes("rtrw") + Big(0) + Big(3) + Line("My Stuff", s.myStuff)
                           + Line("Separate savegame", s.separateSavegame) + Line("Auto update", s.autoUpdate)
  {
    StoredInSteps(s);
    HeaderIs(3);
    KeysAre();
    LineIs(MY_STUFF_KEY, "My Stuff", s.myStuff);
    LineIs(SAVEGAME_KEY, "Separate savegame", s.separateSavegame);
    LineIs(AUTOUPDATE_KEY, "Auto update", s.autoUpdate);
  }

  lemma WordIsRead(file: seq<byte>, pos: nat, v: u32)
    requires pos + 4 <= |file| && file[pos..pos + 4] == Big(v)
    ensures ReadU32(file, pos) == Some(v)
  {
    BigEndianOfWordBytes(v);
    var b := file[pos..pos + 4];
    assert b[0] == file[pos] && b[1] == file[pos + 1] && b[2] == file[pos + 2] && b[3] == file[pos + 3];
  }

  lemma MagicIs(file: seq<byte>)
    ensures ReadU32(file, 0) == Some(0x7274_7277) ==> |file| >= 4 && file[..4] == Bytes("rtrw")
  {
    if ReadU32(file, 0) == Some(0x7274_7277) {
      MagicBytes(file[0], file[1], file[2], file[3]);
      assert file[..4] == [0x72, 0x74, 0x72, 0x77];
    }
  }

  lemma MagicBytes(a: byte, b: byte, c: byte, d: byte)
    requires BigEndian(a, b, c, d) == 0x7274_7277
    ensures a == 0x72 && b == 0x74 && c == 0x72 && d == 0x77
  {
  }

  /** Any other magic is refused, and the settings stay the defaults. */
  lemma OtherMagicFails(file: seq<byte>)
    requires |file| < 4 || file[..4] != Bytes("rtrw")
    ensures !Parsed(file).ok && Parsed(file).settings == Settings(0, 0, 1)
  {
    MagicIs(file);
  }

  /** A file without entries gives the defaults: no My Stuff, no separate savegame, updates on. */
  lemma FreshFileGivesDefaults(rest: seq<byte>)
    ensures Parsed(HeaderBytes(0) + rest).ok && Parsed(HeaderBytes(0) + rest).settings == Settings(0, 0, 1)
  {
    FileParses(0, [], rest);
    Regroup(U32(MAGIC), U32(VERSION), U32(0) + rest);
    Regroup(U32(MAGIC) + U32(VERSION), U32(0), rest);
    assert OptionsBytes([]) + rest == rest;
  }

  /** A key of up to 31 bytes is read with its value. */
  lemma ShortKeyIsRead(before: seq<byte>, key: seq<byte>, value: u32, rest: seq<byte>)
    requires |key| <= 31
    ensures ReadEntry(before + EntryBytes(key, value) + rest, |before|) == Entry(key, value, |before| + 12 + |key|)
  {
    var file := before + EntryBytes(key, value) + rest;
    assert file[|before|..] == EntryBytes(key, value) + rest;
    EntryReadsBack(file, |before|, key, value, rest);
  }

  /** A longer one is not, whatever follows. */
  lemma LongKeyFails(before: seq<byte>, length: u32, rest: seq<byte>)
    requires length >= 32
    ensures ReadEntry(before + U32(length) + rest, |before|) == Bad
  {
    var file := before + U32(length) + rest;
    assert file[|before|..|before| + 4] == U32(length) == Big(length);
    WordIsRead(file, |before|, length);
  }

  /** A value is four bytes. */
  lemma OtherLengthFails(before: seq<byte>, key: seq<byte>, length: u32, rest: seq<byte>)
    requires |key| <= 31 && length != 4
    ensures ReadEntry(before + U32(|key|) + key + U32(length) + rest, |before|) == Bad
  {
    var file, at := before + U32(|key|) + key + U32(length) + rest, |before| + 4 + |key|;
    assert file[|before|..|before| + 4] == U32(|key|) == Big(|key|);
    WordIsRead(file, |before|, |key|);
    assert file[at..at + 4] == U32(length) == Big(length);
    WordIsRead(file, at, length);
  }

  lemma MyStuffIsAssigned(s: Settings, value: u32)
    ensures Assigned(s, KeyBytes("My Stuff"), value) == Settings(value, s.separateSavegame, s.autoUpdate)
  {
    KnownKeys();
  }

  lemma SavegameIsAssigned(s: Settings, value: u32)
    ensures Assigned(s, KeyBytes("Separate savegame"), value) == Settings(s.myStuff, value, s.autoUpdate)
  {
    KnownKeys();
  }

  lemma AutoUpdateIsAssigned(s: Settings, value: u32)
    ensures Assigned(s, KeyBytes("Auto update"), value) == Settings(s.myStuff, s.separateSavegame, value)
  {
    KnownKeys();
  }
}
