// The tokens of a registry: objects of string fields, inside one object.

/** Where the first key that is a hit stands among the tokens, for any notion of a hit. */
module RegistryTokens {
  import opened CStrings
  import opened JsonLexemes

  /** A key with a string value, as written. */
  datatype Field = Field(key: string, raw: string)

  /** A key with an object of fields. */
  datatype Entry = Entry(key: string, fields: seq<Field>)

  function FirstField(fs: seq<Field>): (r: seq<Token>)
    requires fs != []
    ensures |r| >= 3
  {
    [Str(fs[0].key), Mark(':'), Str(fs[0].raw)] + (if |fs| == 1 then [] else [Mark(',')])
  }

  function FieldsTokens(fs: seq<Field>): seq<Token> {
    if fs == [] then [] else FirstField(fs) + FieldsTokens(fs[1..])
  }

  function EntryTokens(e: Entry): seq<Token> {
    [Str(e.key), Mark(':'), Mark('{')] + (FieldsTokens(e.fields) + [Mark('}')])
  }

  function FirstEntry(es: seq<Entry>): seq<Token>
    requires es != []
  {
    EntryTokens(es[0]) + (if |es| == 1 then [] else [Mark(',')])
  }

  function EntriesTokens(es: seq<Entry>): seq<Token> {
    if es == [] then [] else FirstEntry(es) + EntriesTokens(es[1..])
  }

  function Registry(es: seq<Entry>): seq<Token> {
    [Mark('{')] + (EntriesTokens(es) + [Mark('}')])
  }

  /** The value of the first field that is a hit. */
  function ValueOf(fs: seq<Field>, hit: string -> bool): Option<string> {
    if fs == [] then None else if hit(fs[0].key) then Some(fs[0].raw) else ValueOf(fs[1..], hit)
  }

  /** The object of the first entry that is a hit. */
  function FieldsOf(es: seq<Entry>, hit: string -> bool): Option<seq<Field>> {
    if es == [] then None else if hit(es[0].key) then Some(es[0].fields) else FieldsOf(es[1..], hit)
  }

  predicate NoneHits(fs: seq<Field>, hit: string -> bool) {
    forall i :: 0 <= i < |fs| ==> !hit(fs[i].key)
  }

  /** No field in front of the first entry that is a hit is one itself. */
  predicate Unambiguous(es: seq<Entry>, hit: string -> bool) {
    es == [] || hit(es[0].key) || (NoneHits(es[0].fields, hit) && Unambiguous(es[1..], hit))
  }

  lemma {:induction false} ValueOfMember(fs: seq<Field>, hit: string -> bool) returns (i: nat)
    requires ValueOf(fs, hit).Some?
    ensures i < |fs| && ValueOf(fs, hit) == Some(fs[i].raw)
  {
    if hit(fs[0].key) {
      i := 0;
    } else {
      var j := ValueOfMember(fs[1..], hit);
      i := j + 1;
    }
  }

  lemma {:induction false} FieldsOfMember(es: seq<Entry>, hit: string -> bool) returns (i: nat)
    requires FieldsOf(es, hit).Some?
    ensures i < |es| && FieldsOf(es, hit) == Some(es[i].fields)
  {
    if hit(es[0].key) {
      i := 0;
    } else {
      var j := FieldsOfMember(es[1..], hit);
      i := j + 1;
    }
  }

  lemma {:induction false} NoneHitsNone(fs: seq<Field>, hit: string -> bool)
    requires NoneHits(fs, hit)
    ensures ValueOf(fs, hit) == None
  {
    if fs != [] {
      NoneHitsNone(fs[1..], hit);
    }
  }

  // ---- Keys among the tokens ----

  lemma AvoidsJoin(a: seq<Token>, b: seq<Token>, n: nat, hit: string -> bool)
    requires Avoids(a + b, |a|, hit) && Avoids(b, n, hit)
    ensures Avoids(a + b, |a| + n, hit)
  {
    forall m | |a| <= m < |a| + n && IsKeyToken(a + b, m) ensures !hit((a + b)[m].raw) {
      assert IsKeyToken(b, m - |a|);
    }
  }

  predicate IsHit(ts: seq<Token>, n: nat, hit: string -> bool) {
    IsKeyToken(ts, n) && hit(ts[n].raw)
  }

  lemma IsHitJoin(a: seq<Token>, b: seq<Token>, n: nat, hit: string -> bool)
    requires IsHit(b, n, hit)
    ensures IsHit(a + b, |a| + n, hit)
  {
  }

  /** Where the tokens of the first field that is a hit begin, or how many tokens there are. */
  function FieldIndex(fs: seq<Field>, hit: string -> bool): nat {
    if fs == [] || hit(fs[0].key) then 0 else |FirstField(fs)| + FieldIndex(fs[1..], hit)
  }

  lemma FieldsSplit(fs: seq<Field>, rest: seq<Token>)
    requires fs != []
    ensures FieldsTokens(fs) + rest == FirstField(fs) + (FieldsTokens(fs[1..]) + rest)
  {
  }

  lemma FirstFieldAvoids(fs: seq<Field>, tail: seq<Token>, hit: string -> bool)
    requires fs != [] && !hit(fs[0].key)
    requires |fs| == 1 && tail != [] ==> tail[0] != Mark(':')
    ensures Avoids(FirstField(fs) + tail, |FirstField(fs)|, hit)
  {
  }

  lemma {:induction false} FieldsAvoid(fs: seq<Field>, rest: seq<Token>, hit: string -> bool)
    requires rest != [] ==> rest[0] != Mark(':')
    ensures FieldIndex(fs, hit) <= |FieldsTokens(fs)|
    ensures Avoids(FieldsTokens(fs) + rest, FieldIndex(fs, hit), hit)
  {
    if fs != [] && !hit(fs[0].key) {
      var tail := FieldsTokens(fs[1..]) + rest;
      FieldsSplit(fs, rest);
      FieldsAvoid(fs[1..], rest, hit);
      FirstFieldAvoids(fs, tail, hit);
      AvoidsJoin(FirstField(fs), tail, FieldIndex(fs[1..], hit), hit);
    }
  }

  /** The field that is a hit stands at its index, its value two tokens further. */
  lemma {:induction false} FieldFound(fs: seq<Field>, rest: seq<Token>, hit: string -> bool)
    ensures ValueOf(fs, hit) == None ==> FieldIndex(fs, hit) == |FieldsTokens(fs)|
    ensures ValueOf(fs, hit).Some? ==>
              var ts, n := FieldsTokens(fs) + rest, FieldIndex(fs, hit);
              n + 2 < |FieldsTokens(fs)| && IsHit(ts, n, hit) && ts[n + 2] == Str(ValueOf(fs, hit).value)
  {
    if fs != [] {
      FieldsSplit(fs, rest);
      var tail := FieldsTokens(fs[1..]) + rest;
      if hit(fs[0].key) {
        assert FirstField(fs) <= FirstField(fs) + tail;
      } else {
        FieldFound(fs[1..], rest, hit);
        if ValueOf(fs[1..], hit).Some? {
          IsHitJoin(FirstField(fs), tail, FieldIndex(fs[1..], hit), hit);
        }
      }
    }
  }

  lemma {:induction false} NoBraces(fs: seq<Field>)
    ensures forall i :: 0 <= i < |FieldsTokens(fs)| ==> !IsBrace(FieldsTokens(fs)[i])
  {
    if fs != [] {
      NoBraces(fs[1..]);
    }
  }

  function EntryIndex(es: seq<Entry>, hit: string -> bool): nat {
    if es == [] || hit(es[0].key) then 0 else |FirstEntry(es)| + EntryIndex(es[1..], hit)
  }

  lemma EntryAvoids(e: Entry, tail: seq<Token>, hit: string -> bool)
    requires !hit(e.key) && NoneHits(e.fields, hit)
    ensures Avoids(EntryTokens(e) + tail, |EntryTokens(e)|, hit)
  {
    var fields, rest := FieldsTokens(e.fields), [Mark('}')] + tail;
    var head := [Str(e.key), Mark(':'), Mark('{')];
    NoneHitsNone(e.fields, hit);
    FieldFound(e.fields, rest, hit);
    FieldsAvoid(e.fields, rest, hit);
    AvoidsJoin(head, fields + rest, |fields|, hit);
    assert EntryTokens(e) + tail == head + (fields + rest);
  }

  lemma FirstEntryAvoids(es: seq<Entry>, tail: seq<Token>, hit: string -> bool)
    requires es != [] && !hit(es[0].key) && NoneHits(es[0].fields, hit)
    ensures Avoids(FirstEntry(es) + tail, |FirstEntry(es)|, hit)
  {
    if |es| == 1 {
      assert FirstEntry(es) == EntryTokens(es[0]);
      EntryAvoids(es[0], tail, hit);
    } else {
      EntryAvoids(es[0], [Mark(',')] + tail, hit);
      assert FirstEntry(es) + tail == EntryTokens(es[0]) + ([Mark(',')] + tail);
    }
  }

  lemma EntriesSplit(es: seq<Entry>, rest: seq<Token>)
    requires es != []
    ensures EntriesTokens(es) + rest == FirstEntry(es) + (EntriesTokens(es[1..]) + rest)
  {
  }

  /** No key before the entry that is a hit is one. */
  lemma {:induction false} EntriesAvoid(es: seq<Entry>, rest: seq<Token>, hit: string -> bool)
    requires Unambiguous(es, hit)
    ensures EntryIndex(es, hit) <= |EntriesTokens(es)|
    ensures Avoids(EntriesTokens(es) + rest, EntryIndex(es, hit), hit)
  {
    if es != [] && !hit(es[0].key) {
      var tail := EntriesTokens(es[1..]) + rest;
      EntriesSplit(es, rest);
      EntriesAvoid(es[1..], rest, hit);
      FirstEntryAvoids(es, tail, hit);
      AvoidsJoin(FirstEntry(es), tail, EntryIndex(es[1..], hit), hit);
    }
  }

  // ---- A field that is a hit ----

  lemma {:induction false} SomeFieldHits(fs: seq<Field>, hit: string -> bool)
    requires ValueOf(fs, hit) == None
    ensures NoneHits(fs, hit)
  {
    if fs != [] {
      SomeFieldHits(fs[1..], hit);
      assert forall i :: 0 < i < |fs| ==> fs[i] == fs[1..][i - 1];
    }
  }

  lemma FieldHit(e: Entry, tail: seq<Token>, hit: string -> bool) returns (m: nat)
    requires !NoneHits(e.fields, hit)
    ensures m < |EntryTokens(e)| && IsHit(EntryTokens(e) + tail, m, hit)
  {
    var fields, rest := FieldsTokens(e.fields), [Mark('}')] + tail;
    var head := [Str(e.key), Mark(':'), Mark('{')];
    if ValueOf(e.fields, hit) == None {
      SomeFieldHits(e.fields, hit);
    }
    FieldFound(e.fields, rest, hit);
    m := |head| + FieldIndex(e.fields, hit);
    IsHitJoin(head, fields + rest, FieldIndex(e.fields, hit), hit);
    assert EntryTokens(e) + tail == head + (fields + rest);
  }

  /** Otherwise some field in front of that entry is one. */
  lemma {:induction false} AmbiguousHit(es: seq<Entry>, rest: seq<Token>, hit: string -> bool) returns (m: nat)
    requires !Unambiguous(es, hit)
    ensures m < EntryIndex(es, hit) && IsHit(EntriesTokens(es) + rest, m, hit)
  {
    EntriesSplit(es, rest);
    var tail := EntriesTokens(es[1..]) + rest;
    if NoneHits(es[0].fields, hit) {
      var j := AmbiguousHit(es[1..], rest, hit);
      IsHitJoin(FirstEntry(es), tail, j, hit);
      m := |FirstEntry(es)| + j;
    } else {
      m := FirstEntryHit(es, tail, hit);
    }
  }

  lemma FirstEntryHit(es: seq<Entry>, tail: seq<Token>, hit: string -> bool) returns (m: nat)
    requires es != [] && !NoneHits(es[0].fields, hit)
    ensures m < |FirstEntry(es)| && IsHit(FirstEntry(es) + tail, m, hit)
  {
    var sep := if |es| == 1 then [] else [Mark(',')];
    m := FieldHit(es[0], sep + tail, hit);
    assert FirstEntry(es) + tail == EntryTokens(es[0]) + (sep + tail);
  }

  /** The first hit at or before a hit. */
  lemma {:induction false} FirstHit(ts: seq<Token>, m: nat, hit: string -> bool) returns (first: nat)
    requires IsHit(ts, m, hit)
    ensures first <= m && IsHit(ts, first, hit) && Avoids(ts, first, hit)
    decreases m
  {
    if i: nat :| i < m && IsHit(ts, i, hit) {
      first := FirstHit(ts, i, hit);
    } else {
      first := m;
      assert forall i :: 0 <= i < m && IsKeyToken(ts, i) ==> IsHit(ts, i, hit) || !hit(ts[i].raw);
    }
  }

  predicate Follows(ts: seq<Token>, n: nat, part: seq<Token>) {
    n + |part| <= |ts| && ts[n..][..|part|] == part
  }

  lemma FollowsJoin(a: seq<Token>, b: seq<Token>, n: nat, part: seq<Token>)
    requires Follows(b, n, part)
    ensures Follows(a + b, |a| + n, part)
  {
    assert (a + b)[|a| + n..] == b[n..];
  }

  /** The tokens of the entry that is a hit: its key, a colon, an opening brace, and its fields. */
  predicate HoldsEntry(ts: seq<Token>, n: nat, hit: string -> bool, fs: seq<Field>) {
    IsHit(ts, n, hit) && Follows(ts, n + 1, [Mark(':'), Mark('{')] + (FieldsTokens(fs) + [Mark('}')]))
  }

  lemma EntryHeld(e: Entry, tail: seq<Token>, hit: string -> bool)
    requires hit(e.key)
    ensures HoldsEntry(EntryTokens(e) + tail, 0, hit, e.fields)
  {
    var part := [Mark(':'), Mark('{')] + (FieldsTokens(e.fields) + [Mark('}')]);
    var ts := EntryTokens(e) + tail;
    assert ts == [Str(e.key)] + (part + tail);
    assert Follows(part + tail, 0, part);
    FollowsJoin([Str(e.key)], part + tail, 0, part);
    assert ts[1] == part[0];
  }

  lemma FirstEntryHeld(es: seq<Entry>, tail: seq<Token>, hit: string -> bool)
    requires es != [] && hit(es[0].key)
    ensures HoldsEntry(FirstEntry(es) + tail, 0, hit, es[0].fields)
  {
    var sep := if |es| == 1 then [] else [Mark(',')];
    assert FirstEntry(es) + tail == EntryTokens(es[0]) + (sep + tail);
    EntryHeld(es[0], sep + tail, hit);
  }

  lemma HoldsEntryJoin(a: seq<Token>, b: seq<Token>, n: nat, hit: string -> bool, fs: seq<Field>)
    requires HoldsEntry(b, n, hit, fs)
    ensures HoldsEntry(a + b, |a| + n, hit, fs)
  {
    IsHitJoin(a, b, n, hit);
    FollowsJoin(a, b, n + 1, [Mark(':'), Mark('{')] + (FieldsTokens(fs) + [Mark('}')]));
  }

  /** Past the tokens of the other entries comes the entry that is a hit, if there is one. */
  lemma {:induction false} EntryFound(es: seq<Entry>, rest: seq<Token>, hit: string -> bool)
    ensures FieldsOf(es, hit) == None ==> EntryIndex(es, hit) == |EntriesTokens(es)|
    ensures FieldsOf(es, hit).Some? ==>
              HoldsEntry(EntriesTokens(es) + rest, EntryIndex(es, hit), hit, FieldsOf(es, hit).value)
  {
    if es != [] {
      EntriesSplit(es, rest);
      var head, tail := FirstEntry(es), EntriesTokens(es[1..]) + rest;
      if hit(es[0].key) {
        FirstEntryHeld(es, tail, hit);
      } else {
        EntryFound(es[1..], rest, hit);
        if FieldsOf(es[1..], hit).Some? {
          HoldsEntryJoin(head, tail, EntryIndex(es[1..], hit), hit, FieldsOf(es[1..], hit).value);
        }
      }
    }
  }

  /** The same inside the whole registry. */
  lemma RegistryFound(es: seq<Entry>, hit: string -> bool)
    requires Unambiguous(es, hit)
    ensures var ts, n := Registry(es), 1 + EntryIndex(es, hit);
            && n <= |ts| && Avoids(ts, n, hit)
            && (FieldsOf(es, hit) == None ==> Avoids(ts, |ts|, hit))
            && (FieldsOf(es, hit).Some? ==> HoldsEntry(ts, n, hit, FieldsOf(es, hit).value))
  {
    var ts, n := EntriesTokens(es) + [Mark('}')], EntryIndex(es, hit);
    EntriesAvoid(es, [Mark('}')], hit);
    EntryFound(es, [Mark('}')], hit);
    AvoidsJoin([Mark('{')], ts, n, hit);
    if FieldsOf(es, hit).Some? {
      HoldsEntryJoin([Mark('{')], ts, n, hit, FieldsOf(es, hit).value);
    } else {
      AvoidsLast(ts, n, hit);
      AvoidsJoin([Mark('{')], ts, n + 1, hit);
    }
  }

  /** Without that, a field comes first. */
  lemma FieldComesFirst(es: seq<Entry>, hit: string -> bool) returns (m: nat)
    requires !Unambiguous(es, hit)
    ensures m < 1 + EntryIndex(es, hit) && IsHit(Registry(es), m, hit) && Avoids(Registry(es), m, hit)
  {
    var ts := EntriesTokens(es) + [Mark('}')];
    var j := AmbiguousHit(es, [Mark('}')], hit);
    IsHitJoin([Mark('{')], ts, j, hit);
    m := FirstHit([Mark('{')] + ts, 1 + j, hit);
  }

  lemma EntryStands(es: seq<Entry>, hit: string -> bool)
    requires FieldsOf(es, hit).Some?
    ensures HoldsEntry(Registry(es), 1 + EntryIndex(es, hit), hit, FieldsOf(es, hit).value)
  {
    EntryFound(es, [Mark('}')], hit);
    HoldsEntryJoin([Mark('{')], EntriesTokens(es) + [Mark('}')], EntryIndex(es, hit), hit, FieldsOf(es, hit).value);
  }

  /** The first key that is a hit is the entry's own if and only if no field in front of it is one. */
  lemma FirstKeyHit(ts: seq<Token>, es: seq<Entry>, hit: string -> bool) returns (n: nat, first: nat)
    requires ts == Registry(es) && FieldsOf(es, hit).Some?
    ensures n == 1 + EntryIndex(es, hit) && IsHit(ts, n, hit)
    ensures first <= n && IsHit(ts, first, hit) && Avoids(ts, first, hit)
    ensures first == n <==> Unambiguous(es, hit)
  {
    n := 1 + EntryIndex(es, hit);
    EntryStands(es, hit);
    if Unambiguous(es, hit) {
      RegistryFound(es, hit);
      first := n;
    } else {
      first := FieldComesFirst(es, hit);
    }
  }

  lemma AvoidsLast(ts: seq<Token>, n: nat, hit: string -> bool)
    requires Avoids(ts, n, hit) && |ts| == n + 1
    ensures Avoids(ts, n + 1, hit)
  {
  }

  /** Inside an object. */
  lemma ObjectFound(fs: seq<Field>, hit: string -> bool)
    ensures var ts, n := [Mark('{')] + FieldsTokens(fs), 1 + FieldIndex(fs, hit);
            && n <= |ts| && Avoids(ts, n, hit)
            && (ValueOf(fs, hit) == None ==> n == |ts|)
            && (ValueOf(fs, hit).Some?
                ==> n + 2 < |ts| && IsHit(ts, n, hit) && ts[n + 2] == Str(ValueOf(fs, hit).value))
  {
    var ts, n := FieldsTokens(fs), FieldIndex(fs, hit);
    assert ts + [] == ts;
    FieldsAvoid(fs, [], hit);
    FieldFound(fs, [], hit);
    AvoidsJoin([Mark('{')], ts, n, hit);
    if ValueOf(fs, hit).Some? {
      IsHitJoin([Mark('{')], ts, n, hit);
    }
  }
}
