// C strings as byte sequences: shared/hash.c and runtime-ext/source/util.c.

/** NUL-terminated byte strings, ASCII lower-casing, and the two path hashes. */
module CStrings {
  import opened Bits

  datatype Option<+T> = None | Some(value: T)

  predicate IsByte(c: char) { c as int < 256 }

  predicate IsText(t: string) {
    forall i :: 0 <= i < |t| ==> t[i] != '\0' && IsByte(t[i])
  }

  /** The bytes of a C string without its terminating NUL. A byte is a `char` below 256. */
  type CString = t: string | IsText(t)

  /** The bytes of `out` up to the terminating NUL. */
  predicate HoldsText(out: seq<char>, t: string) {
    |t| < |out| && out[..|t|] == t && out[|t|] == '\0'
  }

  lemma Regroup<T>(a: seq<T>, b: seq<T>, c: seq<T>)
    ensures a + (b + c) == a + b + c
  {
  }

  type u32 = x: int | 0 <= x < WORD

  /** The byte a C pointer sees at offset `i`: the NUL follows the last character. */
  function ByteAt(s: CString, i: nat): (b: int)
    requires i <= |s|
  {
    if i < |s| then s[i] as int else 0
  }

  /** `tolower` in the "C" locale. */
  function ToLower(c: char): char {
    if 'A' <= c <= 'Z' then (c as int + 32) as char else c
  }

  function Lower(s: CString): (r: CString)
    ensures |r| == |s|
    ensures forall i :: 0 <= i < |s| ==> r[i] == ToLower(s[i])
  {
    seq(|s|, i requires 0 <= i < |s| => ToLower(s[i]))
  }

  function LowerByteAt(s: CString, i: nat): (b: int)
    requires i <= |s|
    ensures b == ByteAt(Lower(s), i)
  {
    if i < |s| then ToLower(s[i]) as int else 0
  }

  predicate IsLower(s: CString) {
    Lower(s) == s
  }

  lemma LowerIdempotent(s: CString)
    ensures IsLower(Lower(s))
  {
  }

  /** Multiplicative hash over unsigned 32-bit words: what both hash loops compute on a text. */
  function Hash(s: CString): u32 {
    if s == [] then 0 else Wrap(Hash(s[..|s| - 1]) * 31 + s[|s| - 1] as int)
  }

  /** `rrc_hash_string`, used by the launcher when it registers a path. */
  method HashString(str: CString) returns (hash: u32)
    ensures hash == Hash(str)
  {
    hash := 0;
    var i := 0;
    while ByteAt(str, i) != 0
      invariant i <= |str|
      invariant hash == Hash(str[..i])
      decreases |str| - i
    {
      assert str[..i + 1][..i] == str[..i];
      hash := Wrap(hash * 31 + ByteAt(str, i));
      i := i + 1;
    }
    assert str[..i] == str;
  }

  /** `rrc_hash_string_lowercase`, used by the game side on a query: the launcher's hash of the lower-cased text. */
  method HashStringLowercase(str: CString) returns (hash: u32)
    ensures hash == Hash(Lower(str))
  {
    hash := 0;
    var i := 0;
    var low := Lower(str);
    while ByteAt(str, i) != 0
      invariant i <= |str|
      invariant hash == Hash(low[..i])
      decreases |str| - i
    {
      assert low[..i + 1][..i] == low[..i];
      hash := Wrap(hash * 31 + ToLower(str[i]) as int);
      i := i + 1;
    }
    assert low[..i] == low;
  }

  /** `strcicmp`: zero exactly on texts equal up to case, otherwise the difference at the first differing byte. */
  method StrCiCmp(a: CString, b: CString) returns (result: int)
    ensures result == 0 <==> Lower(a) == Lower(b)
    ensures exists k: nat :: k <= |a| && k <= |b| && Lower(a)[..k] == Lower(b)[..k]
              && result == ByteAt(Lower(a), k) - ByteAt(Lower(b), k)
  {
    var i := 0;
    ghost var la, lb := Lower(a), Lower(b);
    result := LowerByteAt(a, i) - LowerByteAt(b, i);
    while result == 0 && ByteAt(a, i) != 0
      invariant i <= |a| && i <= |b|
      invariant la[..i] == lb[..i]
      invariant result == ByteAt(la, i) - ByteAt(lb, i)
      decreases |a| - i
    {
      assert la[..i + 1] == la[..i] + [la[i]] && lb[..i + 1] == lb[..i] + [lb[i]];
      i := i + 1;
      result := LowerByteAt(a, i) - LowerByteAt(b, i);
    }
    if result == 0 {
      assert la[..i] == la && lb[..i] == lb;
    } else if la == lb {
      assert false;
    }
  }
}
