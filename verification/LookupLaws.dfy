// runtime-ext/source/dvd.c, lines 183-217, and riivo_patch_loader.c, lines 140-230: what a user's file entries do.

/** The replacement lookup in the user's terms: which file a path on the disc gives after any registrations. */
module LookupLaws {
  import opened Bits
  import opened CStrings
  import opened Vecs
  import opened PatchLoader
  import opened DvdLookup
  import opened RiivoIndex

  // ---- Case and hash ----

  /** Lower-casing turns the 26 capital letters into the small ones. */
  lemma CapitalsLower()
    ensures Lower("ABCDEFGHIJKLMNOPQRSTUVWXYZ") == "abcdefghijklmnopqrstuvwxyz"
  {
  }

  /** It changes nothing else. */
  lemma OthersStay(s: CString)
    requires forall c :: c in s ==> c !in "ABCDEFGHIJKLMNOPQRSTUVWXYZ"
    ensures Lower(s) == s
  {
    forall i | 0 <= i < |s|
      ensures ToLower(s[i]) == s[i]
    {
      CapitalIs(s[i]);
      assert s[i] in s;
    }
  }

  lemma CapitalIs(c: char)
    ensures 'A' <= c <= 'Z' ==> c in "ABCDEFGHIJKLMNOPQRSTUVWXYZ"
  {
    var capitals := "ABCDEFGHIJKLMNOPQRSTUVWXYZ";
    if 'A' <= c <= 'Z' {
      assert capitals[c as int - 'A' as int] == c;
    }
  }

  /** The characters of the text as coefficients of powers of 31, without wrapping. */
  function Polynomial(s: CString): nat {
    if s == [] then 0 else Polynomial(s[..|s| - 1]) * 31 + s[|s| - 1] as int
  }

  lemma WrapStep(x: nat, c: nat)
    ensures Wrap(Wrap(x) * 31 + c) == Wrap(x * 31 + c)
  {
    var q, r := x / 0x1_0000_0000, Wrap(x);
    assert x * 31 + c == (r * 31 + c) + 0x1_0000_0000 * (31 * q);
  }

  /** Wrapping at every step is wrapping once. */
  lemma {:induction false} HashIsPolynomial(s: CString)
    ensures Hash(s) == Polynomial(s) % 0x1_0000_0000
  {
    if s != [] {
      HashIsPolynomial(s[..|s| - 1]);
      WrapStep(Polynomial(s[..|s| - 1]), s[|s| - 1] as int);
    }
  }

  // ---- One slash ----

  /** A query may begin with a slash or not. */
  lemma LeadingSlashIsDropped(disc: RiivoDisc, p: CString)
    requires p == [] || p[0] != '/'
    ensures Resolved(disc, "/" + p) == Resolved(disc, p)
  {
    assert ("/" + p)[1..] == p;
  }

  // ---- Queries against tables in any order ----

  /** The tables of these registrations, in any order. */
  ghost predicate Arranged(onCard: set<CString>, regs: seq<Registration>,
                           full: seq<Replacement>, byName: seq<Replacement>)
  {
    && multiset(full) == multiset(RegisteredAll(onCard, regs).full)
    && multiset(byName) == multiset(RegisteredAll(onCard, regs).byName)
  }

  /** The game's query leads to this SD path, or to none. */
  predicate Gives(onCard: set<CString>, regs: seq<Registration>, full: seq<Replacement>, byName: seq<Replacement>,
                  query: CString, path: Option<CString>) {
    var sdFiles := RegisteredAll(onCard, regs).sdFiles;
    match Resolved(RiivoDisc(sdFiles, byName, full), query)
    case None => path == None
    case Some(e) => e < |sdFiles| && path == Some(sdFiles[e])
  }

  lemma GivesPlain(onCard: set<CString>, regs: seq<Registration>, full: seq<Replacement>, byName: seq<Replacement>,
                   query: CString)
    requires Arranged(onCard, regs, full, byName)
    ensures Gives(onCard, regs, full, byName, query, PlainResolved(PlainRegisteredAll(onCard, regs), query))
  {
    LookupAgreesWithPlainMaps(onCard, regs, full, byName, query);
  }

  /** The file is taken: it need not exist, or it does. */
  predicate Present(onCard: set<CString>, external: CString, checkExists: bool) {
    !checkExists || Lower(external) in onCard
  }

  lemma AppendedLast(onCard: set<CString>, regs: seq<Registration>, reg: Registration)
    ensures var r := Registration(Lower(reg.disc), Lower(reg.external), reg.checkExists);
            && RegisteredAll(onCard, regs + [reg]) == Registered(RegisteredAll(onCard, regs), onCard, r)
            && PlainRegisteredAll(onCard, regs + [reg]) == PlainRegistered(PlainRegisteredAll(onCard, regs), onCard, r)
  {
    assert (regs + [reg])[..|regs|] == regs;
  }

  lemma LowerOfConcat(a: CString, b: CString)
    ensures Lower(a + b) == Lower(a) + Lower(b)
  {
  }

  lemma LowerOfPath(p: CString)
    ensures Lower("/" + p) == "/" + Lower(p)
  {
    LowerOfConcat("/", p);
    assert Lower("/") == "/";
  }

  // ---- The part behind the last slash ----

  lemma {:induction false} SegmentOfSplit(a: CString, b: CString)
    requires '/' !in b
    ensures LastSegment(a + "/" + b) == b
  {
    var path := a + "/" + b;
    if b == [] {
      assert path[|path| - 1] == '/';
    } else {
      var n := |b| - 1;
      assert path[..|path| - 1] == a + "/" + b[..n] && path[|path| - 1] == b[n];
      SegmentOfSplit(a, b[..n]);
    }
  }

  lemma {:induction false} SegmentOfName(b: CString)
    requires '/' !in b
    ensures LastSegment(b) == b
  {
    if b != [] {
      SegmentOfName(b[..|b| - 1]);
    }
  }

  /** The path is `b`, or ends in a slash and `b`. */
  ghost predicate EndsIn(path: CString, b: CString) {
    '/' !in b && (path == b || exists a: CString :: path == a + "/" + b)
  }

  lemma SegmentIs(path: CString, b: CString)
    requires EndsIn(path, b)
    ensures LastSegment(path) == b
  {
    if path == b {
      SegmentOfName(b);
    } else {
      var a: CString :| path == a + "/" + b;
      SegmentOfSplit(a, b);
    }
  }

  lemma LowerHasNoSlash(b: CString)
    requires '/' !in b
    ensures '/' !in Lower(b)
  {
  }

  /** A query's lower-cased path and its last part, with a slash in front or not. */
  lemma QueryParts(query: CString, p: CString, b: CString)
    requires EndsIn(p, b) && (query == "/" + p || (query == p && (p == [] || p[0] != '/')))
    ensures Stripped(query) == p && LastSegment(Lower(p)) == Lower(b)
  {
    if query == "/" + p {
      assert query[1..] == p;
    }
    SegmentIs(p, b);
    LastSegmentOfLower(p);
  }

  lemma NoSuchKey(onCard: set<CString>, regs: seq<Registration>, byName: seq<Replacement>, key: CString)
    requires multiset(byName) == multiset(RegisteredAll(onCard, regs).byName)
    requires forall r :: r in byName ==> r.disc != key
    ensures key !in PlainRegisteredAll(onCard, regs).byName
  {
    RegisteredAllRefines(onCard, regs);
    assert key in PlainRegisteredAll(onCard, regs).byName ==> HasKey(multiset(byName), key);
    assert forall r :: r in multiset(byName) ==> r in byName;
  }

  /** What the plain maps say to a query, by the path and its last part. */
  lemma PlainAnswer(p: PlainIndex, query: CString, q: CString, b: CString)
    requires EndsIn(q, b) && (query == "/" + q || (query == q && (q == [] || q[0] != '/')))
    ensures PlainResolved(p, query)
              == if Lower(b) in p.byName then Some(p.byName[Lower(b)])
                 else if Lower(q) in p.full then Some(p.full[Lower(q)]) else None
  {
    QueryParts(query, q, b);
  }

  lemma PlainFullEntered(p: PlainIndex, onCard: set<CString>, path: CString, external: CString, checkExists: bool)
    requires !checkExists || external in onCard
    ensures PlainRegistered(p, onCard, Registration("/" + path, external, checkExists))
              == PlainIndex(p.known + {external}, p.full[path := external], p.byName)
  {
    var disc: CString := "/" + path;
    assert disc[0] == '/' && disc[1..] == path && "main.dol"[0] == 'm';
  }

  // ---- The file registered last ----

  /**
   * After any registrations, a file registered under a slash and a path is what that path gives, in any case and with
   * or without the slash, unless an entry for a bare file name equals the part behind the path's last slash.
   */
  lemma FullPathAnswers(onCard: set<CString>, regs: seq<Registration>, p: CString, external: CString, checkExists: bool,
                        full: seq<Replacement>, byName: seq<Replacement>, query: CString, q: CString, b: CString)
    requires Present(onCard, external, checkExists)
    requires Arranged(onCard, regs + [Registration("/" + p, external, checkExists)], full, byName)
    requires Lower(q) == Lower(p) && EndsIn(q, b) && (query == "/" + q || (query == q && (q == [] || q[0] != '/')))
    requires forall r :: r in byName ==> r.disc != Lower(b)
    ensures Gives(onCard, regs + [Registration("/" + p, external, checkExists)], full, byName, query,
                  Some(Lower(external)))
  {
    var reg := Registration("/" + p, external, checkExists);
    AppendedLast(onCard, regs, reg);
    LowerOfPath(p);
    PlainFullEntered(PlainRegisteredAll(onCard, regs), onCard, Lower(p), Lower(external), checkExists);
    NoSuchKey(onCard, regs + [reg], byName, Lower(b));
    PlainAnswer(PlainRegisteredAll(onCard, regs + [reg]), query, q, b);
    GivesPlain(onCard, regs + [reg], full, byName, query);
  }

  /** A disc path that is taken as a bare file name: no leading slash, not main.dol, not an AppleDouble file. */
  predicate IsBareName(name: CString) {
    '/' !in name && Lower(name) != "main.dol" && !("._" <= name)
  }

  /** A file registered under a bare name is what every path gives that ends in it, in any case. */
  lemma FileNameAnswers(onCard: set<CString>, regs: seq<Registration>, name: CString, external: CString,
                        checkExists: bool, full: seq<Replacement>, byName: seq<Replacement>, query: CString, q: CString,
                        b: CString)
    requires Present(onCard, external, checkExists) && IsBareName(name)
    requires Arranged(onCard, regs + [Registration(name, external, checkExists)], full, byName)
    requires Lower(b) == Lower(name) && EndsIn(q, b) && (query == "/" + q || (query == q && (q == [] || q[0] != '/')))
    ensures Gives(onCard, regs + [Registration(name, external, checkExists)], full, byName, query,
                  Some(Lower(external)))
  {
    var reg := Registration(name, external, checkExists);
    AppendedLast(onCard, regs, reg);
    LowerHasNoSlash(name);
    LowerAppleDouble(name);
    PlainAnswer(PlainRegisteredAll(onCard, regs + [reg]), query, q, b);
    GivesPlain(onCard, regs + [reg], full, byName, query);
  }

  lemma LowerAppleDouble(name: CString)
    ensures IsAppleDouble(Lower(name)) ==> "._" <= name
  {
    if IsAppleDouble(Lower(name)) {
      assert Lower(name)[0] == ToLower(name[0]) && Lower(name)[1] == ToLower(name[1]);
      assert name[..2] == "._";
    }
  }

  // ---- Registrations that replace nothing ----

  /** main.dol is remembered by itself. */
  lemma MainDolIsRemembered(onCard: set<CString>, regs: seq<Registration>, disc: CString, external: CString,
                            checkExists: bool)
    requires Lower(disc) == "main.dol"
    ensures RegisteredAll(onCard, regs + [Registration(disc, external, checkExists)])
              == RegisteredAll(onCard, regs).(mainDol := Some(Lower(external)))
  {
    AppendedLast(onCard, regs, Registration(disc, external, checkExists));
  }

  /** AppleDouble files are ignored, and so are files that must exist and do not. */
  lemma IgnoredChangesNothing(onCard: set<CString>, regs: seq<Registration>, disc: CString, external: CString,
                              checkExists: bool)
    requires Lower(disc) != "main.dol"
    requires || "._" <= disc
             || (checkExists && Lower(external) !in onCard && Lower(external) !in RegisteredAll(onCard, regs).sdFiles)
    ensures RegisteredAll(onCard, regs + [Registration(disc, external, checkExists)]) == RegisteredAll(onCard, regs)
  {
    AppendedLast(onCard, regs, Registration(disc, external, checkExists));
    if "._" <= disc {
      assert disc[0] == '.' && disc[1] == '_';
    } else {
      assert FirstPath(RegisteredAll(onCard, regs).sdFiles, Lower(external)).None?;
    }
  }

  /** No other registration touches it. */
  lemma MainDolIsKept(onCard: set<CString>, regs: seq<Registration>, reg: Registration)
    requires Lower(reg.disc) != "main.dol"
    ensures RegisteredAll(onCard, regs + [reg]).mainDol == RegisteredAll(onCard, regs).mainDol
  {
    AppendedLast(onCard, regs, reg);
  }

  // ---- Other queries ----

  /** The registration is for another path: neither this one whole nor its last part. */
  predicate IsForOther(disc: CString, q: CString, b: CString) {
    Lower(disc) != "/" + Lower(q) && Lower(disc) != Lower(b)
  }

  /** A registration for another path leaves a query's answer as it was. */
  lemma OthersKeepAnswer(onCard: set<CString>, regs: seq<Registration>, reg: Registration, query: CString, q: CString,
                         b: CString)
    requires IsForOther(reg.disc, q, b) && EndsIn(q, b) && query == "/" + q
    ensures PlainResolved(PlainRegisteredAll(onCard, regs + [reg]), query)
              == PlainResolved(PlainRegisteredAll(onCard, regs), query)
  {
    AppendedLast(onCard, regs, reg);
    PlainAnswer(PlainRegisteredAll(onCard, regs + [reg]), query, q, b);
    PlainAnswer(PlainRegisteredAll(onCard, regs), query, q, b);
    var disc := Lower(reg.disc);
    assert IsFullPath(disc) ==> disc == "/" + disc[1..];
  }

  // ---- The sort ----

  function Inserted(r: Replacement, table: seq<Replacement>): (s: seq<Replacement>)
    ensures multiset(s) == multiset(table) + multiset{r}
  {
    if table == [] then [r]
    else if r.hash <= table[0].hash then [r] + table
    else
      assert table == [table[0]] + table[1..];
      [table[0]] + Inserted(r, table[1..])
  }

  /** Non-descending, as `qsort` leaves a table. */
  predicate NonDescending(table: seq<Replacement>) {
    forall i, j :: 0 <= i < j < |table| ==> table[i].hash <= table[j].hash
  }

  predicate AllFrom(table: seq<Replacement>, hash: nat) {
    forall i :: 0 <= i < |table| ==> hash <= table[i].hash
  }

  lemma {:induction false} InsertedFrom(r: Replacement, table: seq<Replacement>, hash: nat)
    requires AllFrom(table, hash) && hash <= r.hash
    ensures AllFrom(Inserted(r, table), hash)
  {
    if table != [] {
      assert AllFrom(table[1..], hash);
      InsertedFrom(r, table[1..], hash);
    }
  }

  lemma InFront(r: Replacement, table: seq<Replacement>)
    requires NonDescending(table) && AllFrom(table, r.hash)
    ensures NonDescending([r] + table)
  {
  }

  lemma {:induction false} InsertedNonDescending(r: Replacement, table: seq<Replacement>)
    requires NonDescending(table)
    ensures NonDescending(Inserted(r, table))
  {
    if table != [] && r.hash > table[0].hash {
      InsertedNonDescending(r, table[1..]);
      InsertedFrom(r, table[1..], table[0].hash);
      InFront(table[0], Inserted(r, table[1..]));
    } else {
      assert AllFrom(table, r.hash);
      InFront(r, table);
    }
  }

  /** Every table has an order the search accepts, whatever hashes collide, and every such order will do. */
  lemma {:induction false} SomeOrderIsAccepted(table: seq<Replacement>) returns (sorted: seq<Replacement>)
    ensures multiset(sorted) == multiset(table) && NonDescending(sorted) && SortedByHash(sorted)
  {
    if table == [] {
      sorted := [];
    } else {
      var rest := SomeOrderIsAccepted(table[1..]);
      sorted := Inserted(table[0], rest);
      InsertedNonDescending(table[0], rest);
      assert table == [table[0]] + table[1..];
    }
  }

  lemma EveryOrderIsAccepted(table: seq<Replacement>)
    requires NonDescending(table)
    ensures SortedByHash(table)
  {
  }
}
