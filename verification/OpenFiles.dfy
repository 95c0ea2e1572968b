// runtime-ext/source/dvd.c, lines 53-111 and 222-416: the refcounted table of open SD files.

/** The open-file table as a state machine over Open, FastOpen, ReadPrio and Close. */
module OpenFiles {
  import opened CStrings
  import opened EntryTag

  const MAX_CONCURRENT_FILES: nat := 16

  /** One `rte_open_file`: its count, and what its FILE_STRUCT refers to while the count is positive. */
  datatype Slot = Slot(refcount: nat, entry: nat, pos: nat)

  /** What the SD driver is asked to do beyond seeking and reading. */
  datatype SdCall = SdOpen(entry: nat) | SdClose(entry: nat)

  /** `fileInfo[e]` is the slot the SD entry `e` points to, if any. */
  datatype State = State(fileInfo: seq<Option<nat>>, slots: seq<Slot>, calls: seq<SdCall>)

  /** The game's handle to an open file. */
  datatype FileInfo = FileInfo(startAddr: nat, length: nat)

  datatype Reply = Fatal | Opened(info: FileInfo) | Bytes(bytes: seq<char>) | Closed | ToGame

  /**
   * A call by the game; `sdOk` says whether the SD driver succeeds, should it be asked, and `found` is the
   * address the game's own FastOpen stores, should that be asked and not fail.
   */
  datatype Op =
    | Open(entry: nat, sdOk: bool)
    | FastOpen(word: nat, sdOk: bool, found: Option<nat>)
    | ReadPrio(startAddr: nat, length: nat, offset: nat, sdOk: bool)
    | Close(startAddr: nat, sdOk: bool)

  /** The contents of the replacement files, by entry number. */
  type Card = seq<seq<char>>

  predicate ShapeOk(card: Card, st: State) {
    && |st.fileInfo| == |card| <= MAX_ENTRIES
    && |st.slots| == MAX_CONCURRENT_FILES
    && (forall e :: 0 <= e < |card| && st.fileInfo[e].Some? ==> st.fileInfo[e].value < MAX_CONCURRENT_FILES)
    && (forall s :: 0 <= s < MAX_CONCURRENT_FILES && st.slots[s].refcount > 0 ==> st.slots[s].entry < |card|)
    && (forall e :: 0 <= e < |card| && st.fileInfo[e].Some? ==> st.slots[st.fileInfo[e].value].refcount > 0)
  }

  function FreeSlot(slots: seq<Slot>): (r: Option<nat>)
    ensures r.None? ==> forall s :: 0 <= s < |slots| ==> slots[s].refcount > 0
    ensures r.Some? ==> r.value < |slots| && slots[r.value].refcount == 0
    ensures r.Some? ==> forall s :: 0 <= s < r.value ==> slots[s].refcount > 0
  {
    if slots == [] then None
    else if slots[0].refcount == 0 then Some(0)
    else
      var rest := FreeSlot(slots[1..]);
      if rest.None? then None else Some(rest.value + 1)
  }

  /** `SD_read` from a position: as many bytes as the file still has. */
  function SdRead(content: seq<char>, pos: nat, length: nat): seq<char> {
    if pos >= |content| then []
    else if pos + length > |content| then content[pos..]
    else content[pos..pos + length]
  }

  function OpenEntryStep(card: Card, st: State, e: nat, sdOk: bool): (State, Reply)
    requires ShapeOk(card, st) && e < |card|
  {
    match st.fileInfo[e]
    case Some(s) =>
      var slot := st.slots[s];
      (st.(slots := st.slots[s := slot.(refcount := slot.refcount + 1)]),
       Opened(FileInfo(Tagged(e), |card[slot.entry]|)))
    case None =>
      var free := FreeSlot(st.slots);
      if free.None? || !sdOk then (st, Fatal)
      else
        (State(st.fileInfo[e := Some(free.value)], st.slots[free.value := Slot(1, e, 0)], st.calls + [SdOpen(e)]),
         Opened(FileInfo(Tagged(e), |card[e]|)))
  }

  function ReadStep(card: Card, st: State, e: nat, length: nat, offset: nat, sdOk: bool): (State, Reply)
    requires ShapeOk(card, st) && e < |card|
  {
    match st.fileInfo[e]
    case None => (st, Fatal)
    case Some(s) =>
      if !sdOk then (st, Fatal)
      else
        var bytes := SdRead(card[st.slots[s].entry], offset, length);
        (st.(slots := st.slots[s := st.slots[s].(pos := offset + |bytes|)]), Bytes(bytes))
  }

  function CloseStep(card: Card, st: State, e: nat, sdOk: bool): (State, Reply)
    requires ShapeOk(card, st) && e < |card|
  {
    match st.fileInfo[e]
    case None => (st, Fatal)
    case Some(s) =>
      var slot := st.slots[s];
      var slots := st.slots[s := slot.(refcount := slot.refcount - 1)];
      if slot.refcount > 1 then (st.(slots := slots), Closed)
      else if !sdOk then (st, Fatal)
      else (State(st.fileInfo[e := None], slots, st.calls + [SdClose(slot.entry)]), Closed)
  }

  /** The SD entry an operation is about; None when the call belongs to the game's own disc. */
  function EntryOf(op: Op): Option<nat> {
    match op
    case Open(e, _) => Some(e)
    case FastOpen(w, _, _) => if IsSpecial(w) then Some(Untagged(w)) else None
    case ReadPrio(w, _, _, _) => if IsSpecial(w) then Some(Untagged(w)) else None
    case Close(w, _) => if IsSpecial(w) then Some(Untagged(w)) else None
  }

  /** The game's own FastOpen answered with an address that would read as one of ours. */
  predicate GameMisleads(op: Op) {
    op.FastOpen? && op.found.Some? && IsSpecial(op.found.value)
  }

  predicate Opens(op: Op) { op.Open? || op.FastOpen? }

  function Acted(card: Card, st: State, op: Op, e: nat): (State, Reply)
    requires ShapeOk(card, st) && e < |card|
  {
    match op
    case Open(_, sdOk) => OpenEntryStep(card, st, e, sdOk)
    case FastOpen(_, sdOk, _) => OpenEntryStep(card, st, e, sdOk)
    case ReadPrio(_, length, offset, sdOk) => ReadStep(card, st, e, length, offset, sdOk)
    case Close(_, sdOk) => CloseStep(card, st, e, sdOk)
  }

  function Step(card: Card, st: State, op: Op): (State, Reply)
    requires ShapeOk(card, st) && (EntryOf(op).Some? ==> EntryOf(op).value < |card|)
  {
    match EntryOf(op)
    case None => (st, if GameMisleads(op) then Fatal else ToGame)
    case Some(e) => Acted(card, st, op, e)
  }

  // ---- The table as the source runs it. ----

  class DvdFiles {
    const card: Card
    const fileInfo: array<Option<nat>>
    const openFiles: array<Slot>
    var calls: seq<SdCall>

    ghost function Snapshot(): State
      reads this, fileInfo, openFiles
    {
      State(fileInfo[..], openFiles[..], calls)
    }

    ghost predicate Valid()
      reads this, fileInfo, openFiles
    {
      ShapeOk(card, Snapshot())
    }

    constructor (card: Card)
      requires |card| <= MAX_ENTRIES
      ensures this.card == card && Valid() && Snapshot() == Initial(card)
      ensures fresh(fileInfo) && fresh(openFiles)
    {
      this.card := card;
      fileInfo := new Option<nat>[|card|](_ => None);
      openFiles := new Slot[MAX_CONCURRENT_FILES](_ => Slot(0, 0, 0));
      calls := [];
    }

    /** `rte_dvd_alloc_open_file`, up to the point where the slot is taken: the first unused slot, or -1. */
    method FindUnusedSlot() returns (slot: int)
      requires openFiles.Length == MAX_CONCURRENT_FILES
      ensures slot == -1 <==> FreeSlot(openFiles[..]).None?
      ensures slot != -1 ==> FreeSlot(openFiles[..]) == Some(slot)
    {
      var i := 0;
      while i < MAX_CONCURRENT_FILES
        invariant 0 <= i <= MAX_CONCURRENT_FILES
        invariant forall s :: 0 <= s < i ==> openFiles[..][s].refcount > 0
      {
        if openFiles[i].refcount == 0 {
          assert openFiles[..][i].refcount == 0;
          return i;
        }
        i := i + 1;
      }
      return -1;
    }

    /** `rte_dvd_open_entry_num` */
    method OpenEntryNum(entryNum: nat, sdOk: bool) returns (reply: Reply)
      requires Valid() && entryNum < |card|
      modifies this, fileInfo, openFiles
      ensures !reply.Fatal? ==> Valid()
      ensures reply == OpenEntryStep(card, old(Snapshot()), entryNum, sdOk).1
      ensures !reply.Fatal? ==> Snapshot() == OpenEntryStep(card, old(Snapshot()), entryNum, sdOk).0
    {
      if fileInfo[entryNum].Some? {
        var slot := fileInfo[entryNum].value;
        reply := Opened(FileInfo(Tagged(entryNum), |card[openFiles[slot].entry]|));
        openFiles[slot] := openFiles[slot].(refcount := openFiles[slot].refcount + 1);
      } else {
        var slot := FindUnusedSlot();
        if slot == -1 {
          return Fatal;
        }
        openFiles[slot] := openFiles[slot].(refcount := 1);
        if !sdOk {
          return Fatal;
        }
        openFiles[slot] := openFiles[slot].(entry := entryNum, pos := 0);
        calls := calls + [SdOpen(entryNum)];
        fileInfo[entryNum] := Some(slot);
        reply := Opened(FileInfo(Tagged(entryNum), |card[entryNum]|));
      }
    }

    /** Moves the position of an open file. */
    method Seek(fd: nat, pos: nat)
      requires fd < openFiles.Length
      modifies openFiles
      ensures openFiles[..] == old(openFiles[..])[fd := old(openFiles[fd]).(pos := pos)]
    {
      openFiles[fd] := openFiles[fd].(pos := pos);
    }

    /** Seeks and reads in an open file. */
    method ReadOpen(fd: nat, length: nat, offset: nat) returns (bytes: seq<char>)
      requires fd < openFiles.Length && openFiles[fd].entry < |card|
      modifies openFiles
      ensures bytes == SdRead(card[old(openFiles[fd].entry)], offset, length)
      ensures openFiles[..] == old(openFiles[..])[fd := old(openFiles[fd]).(pos := offset + |bytes|)]
    {
      ghost var slots := openFiles[..];
      Seek(fd, offset);
      bytes := SdRead(card[openFiles[fd].entry], openFiles[fd].pos, length);
      Seek(fd, openFiles[fd].pos + |bytes|);
      SameSlotTwice(slots, openFiles[..], fd, slots[fd].(pos := offset), slots[fd].(pos := offset + |bytes|));
    }

    /** `custom_read_prio_impl` */
    method ReadPrioImpl(startAddr: nat, length: nat, offset: nat, sdOk: bool) returns (reply: Reply)
      requires Valid() && (IsSpecial(startAddr) ==> Untagged(startAddr) < |card|)
      modifies this, openFiles
      ensures Valid()
      ensures (Snapshot(), reply) == Step(card, old(Snapshot()), ReadPrio(startAddr, length, offset, sdOk))
    {
      if !IsSpecial(startAddr) {
        return ToGame;
      }
      var entrynum := Untagged(startAddr);
      if fileInfo[entrynum].None? || !sdOk {
        return Fatal;
      }
      ReadKeepsShape(card, Snapshot(), entrynum, length, offset);
      var bytes := ReadOpen(fileInfo[entrynum].value, length, offset);
      reply := Bytes(bytes);
    }

    /** `custom_close_impl` */
    method CloseImpl(startAddr: nat, sdOk: bool) returns (reply: Reply)
      requires Valid() && (IsSpecial(startAddr) ==> Untagged(startAddr) < |card|)
      modifies this, fileInfo, openFiles
      ensures reply == Step(card, old(Snapshot()), Close(startAddr, sdOk)).1
      ensures !reply.Fatal? ==> Snapshot() == Step(card, old(Snapshot()), Close(startAddr, sdOk)).0
    {
      if !IsSpecial(startAddr) {
        return ToGame;
      }
      var entrynum := Untagged(startAddr);
      if fileInfo[entrynum].None? {
        return Fatal;
      }
      var slot := fileInfo[entrynum].value;
      openFiles[slot] := openFiles[slot].(refcount := openFiles[slot].refcount - 1);
      if openFiles[slot].refcount == 0 {
        if !sdOk {
          return Fatal;
        }
        calls := calls + [SdClose(openFiles[slot].entry)];
        fileInfo[entrynum] := None;
      }
      reply := Closed;
    }

    /** `custom_fast_open_impl` */
    method FastOpenImpl(entryNum: nat, sdOk: bool, found: Option<nat>) returns (reply: Reply)
      requires Valid() && (IsSpecial(entryNum) ==> Untagged(entryNum) < |card|)
      modifies this, fileInfo, openFiles
      ensures reply == Step(card, old(Snapshot()), FastOpen(entryNum, sdOk, found)).1
      ensures !reply.Fatal? ==> Snapshot() == Step(card, old(Snapshot()), FastOpen(entryNum, sdOk, found)).0
    {
      if IsSpecial(entryNum) {
        reply := OpenEntryNum(Untagged(entryNum), sdOk);
      } else if found.Some? && IsSpecial(found.value) {
        reply := Fatal;
      } else {
        reply := ToGame;
      }
    }
  }

  lemma SameSlotTwice(slots: seq<Slot>, slots': seq<Slot>, fd: nat, first: Slot, second: Slot)
    requires fd < |slots| && slots' == slots[fd := first][fd := second]
    ensures slots' == slots[fd := second]
  {
  }

  lemma ReadKeepsShape(card: Card, st: State, e: nat, length: nat, offset: nat)
    requires ShapeOk(card, st) && e < |card|
    ensures ShapeOk(card, ReadStep(card, st, e, length, offset, true).0)
  {
  }

  function Initial(card: Card): State {
    State(seq(|card|, _ => None), seq(MAX_CONCURRENT_FILES, _ => Slot(0, 0, 0)), [])
  }

  // ---- Whole runs. ----

  /** A run ends at the first fatal reply. */
  datatype Run = Run(st: State, replies: seq<Reply>, dead: bool)

  /** How a call about an entry moves the number of its opens that the game has not closed yet. */
  function CountAfter(count: nat, op: Op): nat {
    if op.ReadPrio? then count
    else if Opens(op) then count + 1
    else if count > 0 then count - 1 else 0
  }

  function Counted(counts: seq<nat>, op: Op): (counts': seq<nat>)
    ensures |counts'| == |counts|
  {
    var e := EntryOf(op);
    if e.None? || e.value >= |counts| then counts else counts[e.value := CountAfter(counts[e.value], op)]
  }

  /** The opens not closed yet, from the calls alone. */
  function Outstanding(n: nat, ops: seq<Op>): (counts: seq<nat>)
    ensures |counts| == n
  {
    if ops == [] then seq(n, _ => 0) else Counted(Outstanding(n, ops[..|ops| - 1]), ops[|ops| - 1])
  }

  /** The game opens entries that exist, and reads and closes only what it holds open. */
  predicate LegalNext(counts: seq<nat>, op: Op) {
    EntryOf(op).Some? ==> EntryOf(op).value < |counts| && (Opens(op) || counts[EntryOf(op).value] > 0)
  }

  predicate Legal(n: nat, ops: seq<Op>) {
    ops == [] || (Legal(n, ops[..|ops| - 1]) && LegalNext(Outstanding(n, ops[..|ops| - 1]), ops[|ops| - 1]))
  }

  /** The SD opens and closes a call should cause: exactly at 0 to 1 and at 1 to 0. */
  function CallsAt(e: nat, count: nat, op: Op): seq<SdCall> {
    if Opens(op) && count == 0 then [SdOpen(e)]
    else if op.Close? && count == 1 then [SdClose(e)]
    else []
  }

  function CallsOf(counts: seq<nat>, op: Op): seq<SdCall> {
    var e := EntryOf(op);
    if e.None? || e.value >= |counts| then [] else CallsAt(e.value, counts[e.value], op)
  }

  function ExpectedCalls(n: nat, ops: seq<Op>): seq<SdCall> {
    if ops == [] then []
    else ExpectedCalls(n, ops[..|ops| - 1]) + CallsOf(Outstanding(n, ops[..|ops| - 1]), ops[|ops| - 1])
  }

  /** Entries held open and slots in use are in one-to-one correspondence, each slot counting its entry's opens. */
  ghost predicate Inv(card: Card, st: State, counts: seq<nat>) {
    && ShapeOk(card, st)
    && |counts| == |card|
    && (forall e :: 0 <= e < |card| ==> (st.fileInfo[e].None? <==> counts[e] == 0))
    && (forall e :: 0 <= e < |card| && st.fileInfo[e].Some? ==> st.slots[st.fileInfo[e].value].refcount == counts[e])
    && (forall e :: 0 <= e < |card| && st.fileInfo[e].Some? ==> st.slots[st.fileInfo[e].value].entry == e)
    && (forall s :: 0 <= s < MAX_CONCURRENT_FILES && st.slots[s].refcount > 0
          ==> st.fileInfo[st.slots[s].entry] == Some(s))
  }

  /** The table is as these calls alone say: each entry's opens counted, and the SD driver called as expected. */
  ghost predicate Follows(card: Card, st: State, ops: seq<Op>) {
    Inv(card, st, Outstanding(|card|, ops)) && st.calls == ExpectedCalls(|card|, ops)
  }

  function Exec(card: Card, ops: seq<Op>): (run: Run)
    requires |card| <= MAX_ENTRIES && Legal(|card|, ops)
    ensures !run.dead ==> Follows(card, run.st, ops)
  {
    if ops == [] then Run(Initial(card), [], false)
    else
      var before := Exec(card, ops[..|ops| - 1]);
      if before.dead then before
      else
        var op := ops[|ops| - 1];
        StepFollows(card, before.st, ops);
        var (st, reply) := Step(card, before.st, op);
        Run(st, before.replies + [reply], reply.Fatal?)
  }

  lemma ReopenKeepsInv(card: Card, st: State, counts: seq<nat>, e: nat, sdOk: bool)
    requires Inv(card, st, counts) && e < |card| && st.fileInfo[e].Some?
    ensures Inv(card, OpenEntryStep(card, st, e, sdOk).0, counts[e := counts[e] + 1])
    ensures OpenEntryStep(card, st, e, sdOk).0.calls == st.calls && counts[e] > 0
  {
    var st', counts' := OpenEntryStep(card, st, e, sdOk).0, counts[e := counts[e] + 1];
    var s := st.fileInfo[e].value;
    forall d | 0 <= d < |card| && st.fileInfo[d].Some?
      ensures st'.slots[st.fileInfo[d].value].refcount == counts'[d] && st'.slots[st.fileInfo[d].value].entry == d
    {
      if st.fileInfo[d].value == s {
        assert st.slots[s].entry == d && st.slots[s].entry == e;
      }
    }
  }

  lemma TakenSlotKeepsInv(card: Card, st: State, counts: seq<nat>, e: nat, free: nat, calls: seq<SdCall>)
    requires Inv(card, st, counts) && e < |card| && st.fileInfo[e].None?
    requires free < MAX_CONCURRENT_FILES && st.slots[free].refcount == 0
    ensures Inv(card, State(st.fileInfo[e := Some(free)], st.slots[free := Slot(1, e, 0)], calls),
                counts[e := counts[e] + 1])
  {
    var fileInfo', slots' := st.fileInfo[e := Some(free)], st.slots[free := Slot(1, e, 0)];
    forall d | 0 <= d < |card| && d != e && st.fileInfo[d].Some?
      ensures st.fileInfo[d].value != free && slots'[st.fileInfo[d].value] == st.slots[st.fileInfo[d].value]
    {
      assert st.slots[st.fileInfo[d].value].refcount > 0;
    }
    forall s | 0 <= s < MAX_CONCURRENT_FILES && slots'[s].refcount > 0
      ensures fileInfo'[slots'[s].entry] == Some(s)
    {
      if s != free {
        assert st.fileInfo[st.slots[s].entry] == Some(s);
      }
    }
  }

  lemma FirstOpenKeepsInv(card: Card, st: State, counts: seq<nat>, e: nat)
    requires Inv(card, st, counts) && e < |card| && st.fileInfo[e].None? && FreeSlot(st.slots).Some?
    ensures Inv(card, OpenEntryStep(card, st, e, true).0, counts[e := counts[e] + 1])
    ensures OpenEntryStep(card, st, e, true).0.calls == st.calls + [SdOpen(e)] && counts[e] == 0
  {
    TakenSlotKeepsInv(card, st, counts, e, FreeSlot(st.slots).value, st.calls + [SdOpen(e)]);
  }

  lemma OpenKeepsInv(card: Card, st: State, counts: seq<nat>, e: nat, sdOk: bool)
    requires Inv(card, st, counts) && e < |card| && !OpenEntryStep(card, st, e, sdOk).1.Fatal?
    ensures Inv(card, OpenEntryStep(card, st, e, sdOk).0, counts[e := counts[e] + 1])
    ensures OpenEntryStep(card, st, e, sdOk).0.calls == st.calls + (if counts[e] == 0 then [SdOpen(e)] else [])
  {
    if st.fileInfo[e].Some? {
      ReopenKeepsInv(card, st, counts, e, sdOk);
    } else {
      FirstOpenKeepsInv(card, st, counts, e);
    }
  }

  lemma ReadKeepsInv(card: Card, st: State, counts: seq<nat>, e: nat, length: nat, offset: nat, sdOk: bool)
    requires Inv(card, st, counts) && e < |card|
    ensures Inv(card, ReadStep(card, st, e, length, offset, sdOk).0, counts)
    ensures ReadStep(card, st, e, length, offset, sdOk).0.calls == st.calls
  {
  }

  lemma CloseKeepsInv(card: Card, st: State, counts: seq<nat>, e: nat, sdOk: bool)
    requires Inv(card, st, counts) && e < |card| && counts[e] > 0
    requires !CloseStep(card, st, e, sdOk).1.Fatal?
    ensures Inv(card, CloseStep(card, st, e, sdOk).0, counts[e := counts[e] - 1])
    ensures CloseStep(card, st, e, sdOk).0.calls == st.calls + (if counts[e] == 1 then [SdClose(e)] else [])
  {
    var st', counts' := CloseStep(card, st, e, sdOk).0, counts[e := counts[e] - 1];
    var s := st.fileInfo[e].value;
    forall d | 0 <= d < |card| && d != e && st.fileInfo[d].Some?
      ensures st.fileInfo[d].value != s && st'.slots[st.fileInfo[d].value] == st.slots[st.fileInfo[d].value]
    {
      assert st.slots[st.fileInfo[d].value].entry == d && st.slots[s].entry == e;
    }
  }

  /**
   * One legal call: keeps the correspondence, moves exactly its entry's count, and calls the SD driver only at the
   * ends.
   */
  lemma StepKeepsInv(card: Card, st: State, counts: seq<nat>, op: Op)
    requires Inv(card, st, counts) && LegalNext(counts, op)
    ensures var (st', reply) := Step(card, st, op);
            !reply.Fatal? ==> Inv(card, st', Counted(counts, op)) && st'.calls == st.calls + CallsOf(counts, op)
  {
    if EntryOf(op).Some? && !Step(card, st, op).1.Fatal? {
      ActedKeepsInv(card, st, counts, op, EntryOf(op).value);
    }
  }

  lemma StepFollows(card: Card, st: State, ops: seq<Op>)
    requires ops != [] && Legal(|card|, ops) && Follows(card, st, ops[..|ops| - 1])
    ensures var (st', reply) := Step(card, st, ops[|ops| - 1]); !reply.Fatal? ==> Follows(card, st', ops)
  {
    StepKeepsInv(card, st, Outstanding(|card|, ops[..|ops| - 1]), ops[|ops| - 1]);
  }

  lemma ActedKeepsInv(card: Card, st: State, counts: seq<nat>, op: Op, e: nat)
    requires Inv(card, st, counts) && e < |card| && (Opens(op) || counts[e] > 0)
    requires !Acted(card, st, op, e).1.Fatal?
    ensures Inv(card, Acted(card, st, op, e).0, counts[e := CountAfter(counts[e], op)])
    ensures Acted(card, st, op, e).0.calls == st.calls + CallsAt(e, counts[e], op)
  {
    if op.ReadPrio? {
      assert counts[e := counts[e]] == counts;
      ReadKeepsInv(card, st, counts, e, op.length, op.offset, op.sdOk);
    } else if op.Close? {
      CloseKeepsInv(card, st, counts, e, op.sdOk);
    } else {
      OpenKeepsInv(card, st, counts, e, op.sdOk);
    }
  }

  /** Reading gives the bytes of the file that was opened, at the offset asked for, whatever happened in between. */
  lemma ReadGivesOwnBytes(card: Card, ops: seq<Op>, startAddr: nat, length: nat, offset: nat)
    requires |card| <= MAX_ENTRIES && Legal(|card|, ops) && !Exec(card, ops).dead
    requires IsSpecial(startAddr) && Untagged(startAddr) < |card|
    requires Outstanding(|card|, ops)[Untagged(startAddr)] > 0
    ensures var reply := Step(card, Exec(card, ops).st, ReadPrio(startAddr, length, offset, true)).1;
            var content := card[Untagged(startAddr)];
            && reply.Bytes?
            && |reply.bytes| == (if offset >= |content| then 0
                                 else if length < |content| - offset then length else |content| - offset)
            && forall i :: 0 <= i < |reply.bytes| ==> reply.bytes[i] == content[offset + i]
  {
    OpenFileIsRead(card, Exec(card, ops).st, Outstanding(|card|, ops), startAddr, length, offset);
    SdReadIs(card[Untagged(startAddr)], offset, length);
  }

  lemma OpenFileIsRead(card: Card, st: State, counts: seq<nat>, startAddr: nat, length: nat, offset: nat)
    requires Inv(card, st, counts) && IsSpecial(startAddr) && Untagged(startAddr) < |card|
    requires counts[Untagged(startAddr)] > 0
    ensures Step(card, st, ReadPrio(startAddr, length, offset, true)).1
              == Bytes(SdRead(card[Untagged(startAddr)], offset, length))
  {
    assert EntryOf(ReadPrio(startAddr, length, offset, true)) == Some(Untagged(startAddr));
  }

  lemma SdReadIs(content: seq<char>, offset: nat, length: nat)
    ensures |SdRead(content, offset, length)| == (if offset >= |content| then 0
                                                  else if length < |content| - offset then length
                                                  else |content| - offset)
    ensures forall i :: 0 <= i < |SdRead(content, offset, length)|
              ==> SdRead(content, offset, length)[i] == content[offset + i]
  {
  }

  /** The word a handle or entry number comes with, if the call carries one. */
  function WordOf(op: Op): Option<nat> {
    match op
    case Open(_, _) => None
    case FastOpen(w, _, _) => Some(w)
    case ReadPrio(w, _, _, _) => Some(w)
    case Close(w, _) => Some(w)
  }

  /**
   * Words outside 0x7F400000 .. 0x7F7FFFFF are the game's own: the call goes to the game and changes nothing here.
   * Only a FastOpen that the game answers from that range is fatal.
   */
  lemma OtherWordsGoToGame(card: Card, st: State, op: Op, w: nat)
    requires ShapeOk(card, st) && WordOf(op) == Some(w) && w < 0x1_0000_0000 && !(0x7F40_0000 <= w < 0x7F80_0000)
    requires op.FastOpen? && op.found.Some? ==> op.found.value < 0x1_0000_0000
    ensures EntryOf(op) == None && Step(card, st, op).0 == st
    ensures Step(card, st, op).1
              == if op.FastOpen? && op.found.Some? && 0x7F40_0000 <= op.found.value < 0x7F80_0000 then Fatal else ToGame
  {
    SpecialRange(w);
    if op.FastOpen? && op.found.Some? {
      SpecialRange(op.found.value);
    }
  }

  /** Words inside it are about the entry their low 22 bits number. */
  lemma TaggedWordsAreEntries(op: Op, w: nat)
    requires WordOf(op) == Some(w) && 0x7F40_0000 <= w < 0x7F80_0000
    ensures EntryOf(op) == Some(w - 0x7F40_0000)
  {
    SpecialRange(w);
  }

  lemma SpecialRange(w: nat)
    requires w < 0x1_0000_0000
    ensures IsSpecial(w) <==> 0x7F40_0000 <= w < 0x7F80_0000
    ensures IsSpecial(w) ==> Untagged(w) == w - 0x7F40_0000
  {
    SpecialIsTopBits(w);
    TopBitsRange(w);
  }

  lemma TopBitsRange(w: nat)
    ensures w / 0x40_0000 == 0x1FD <==> 0x7F40_0000 <= w < 0x7F80_0000
    ensures w / 0x40_0000 == 0x1FD ==> w % 0x40_0000 == w - 0x7F40_0000
  {
  }

  function OpenEntries(counts: seq<nat>): set<nat> {
    set e: nat | e < |counts| && counts[e] > 0
  }

  function EntriesOfSlots(slots: seq<Slot>): set<nat> {
    if slots == [] then {}
    else EntriesOfSlots(slots[..|slots| - 1]) +
         (if slots[|slots| - 1].refcount > 0 then {slots[|slots| - 1].entry} else {})
  }

  lemma {:induction false} EntriesOfSlotsMembers(slots: seq<Slot>, e: nat)
    ensures e in EntriesOfSlots(slots) <==> exists s :: 0 <= s < |slots| && slots[s].refcount > 0 && slots[s].entry == e
  {
    if slots != [] {
      var n := |slots| - 1;
      EntriesOfSlotsMembers(slots[..n], e);
      assert forall s :: 0 <= s < n ==> slots[..n][s] == slots[s];
    }
  }

  predicate EntriesDiffer(slots: seq<Slot>) {
    forall s, t :: 0 <= s < t < |slots| && slots[s].refcount > 0 && slots[t].refcount > 0
      ==> slots[s].entry != slots[t].entry
  }

  lemma {:induction false} EntriesOfSlotsCount(slots: seq<Slot>)
    requires EntriesDiffer(slots)
    ensures |EntriesOfSlots(slots)| <= |slots|
    ensures |EntriesOfSlots(slots)| == |slots| <==> AllUsed(slots)
  {
    if slots != [] {
      var n := |slots| - 1;
      FrontDiffers(slots, slots[..n]);
      EntriesOfSlotsCount(slots[..n]);
      LastUsedIff(slots, slots[..n]);
    }
  }

  lemma FrontDiffers(slots: seq<Slot>, front: seq<Slot>)
    requires EntriesDiffer(slots) && slots != [] && front == slots[..|slots| - 1]
    ensures EntriesDiffer(front)
    ensures slots[|slots| - 1].refcount > 0 ==> slots[|slots| - 1].entry !in EntriesOfSlots(front)
  {
    EntriesOfSlotsMembers(front, slots[|slots| - 1].entry);
  }

  lemma LastUsedIff(slots: seq<Slot>, front: seq<Slot>)
    requires slots != [] && front == slots[..|slots| - 1]
    ensures AllUsed(slots) <==> AllUsed(front) && slots[|slots| - 1].refcount > 0
  {
    assert forall s :: 0 <= s < |front| ==> front[s] == slots[s];
  }

  predicate AllUsed(slots: seq<Slot>) {
    forall s :: 0 <= s < |slots| ==> slots[s].refcount > 0
  }

  /** No slot is free exactly when sixteen different files are open. */
  lemma FullExactlyAtSixteen(card: Card, st: State, counts: seq<nat>)
    requires Inv(card, st, counts)
    ensures |OpenEntries(counts)| <= 16
    ensures FreeSlot(st.slots).None? <==> |OpenEntries(counts)| == 16
  {
    forall e: nat
      ensures e in OpenEntries(counts) <==> e in EntriesOfSlots(st.slots)
    {
      EntriesOfSlotsMembers(st.slots, e);
      if e in OpenEntries(counts) {
        assert st.fileInfo[e].Some?;
      }
    }
    assert OpenEntries(counts) == EntriesOfSlots(st.slots);
    EntriesOfSlotsCount(st.slots);
  }

  /**
   * A legal call is fatal exactly when it is a first open with sixteen other files already open, or the SD
   * driver fails a call that really has to be made, or the game's own FastOpen answers with one of our addresses.
   */
  lemma FatalExactlyWhen(card: Card, ops: seq<Op>, op: Op)
    requires |card| <= MAX_ENTRIES && Legal(|card|, ops) && !Exec(card, ops).dead
    requires LegalNext(Outstanding(|card|, ops), op)
    ensures var counts := Outstanding(|card|, ops);
            Step(card, Exec(card, ops).st, op).1.Fatal? <==>
              if EntryOf(op).None? then GameMisleads(op)
              else
                var e := EntryOf(op).value;
                if Opens(op) then counts[e] == 0 && (!op.sdOk || |OpenEntries(counts)| == 16)
                else !op.sdOk && (op.ReadPrio? || counts[e] == 1)
  {
    StepFatalExactlyWhen(card, Exec(card, ops).st, Outstanding(|card|, ops), op);
  }

  lemma StepFatalExactlyWhen(card: Card, st: State, counts: seq<nat>, op: Op)
    requires Inv(card, st, counts) && LegalNext(counts, op)
    ensures Step(card, st, op).1.Fatal? <==>
              if EntryOf(op).None? then GameMisleads(op)
              else
                var e := EntryOf(op).value;
                if Opens(op) then counts[e] == 0 && (!op.sdOk || |OpenEntries(counts)| == 16)
                else !op.sdOk && (op.ReadPrio? || counts[e] == 1)
  {
    FullExactlyAtSixteen(card, st, counts);
  }

  /** The handle an open returns leads later reads and closes back to the same entry, and reports its file's size. */
  lemma HandleLeadsBack(card: Card, st: State, counts: seq<nat>, op: Op)
    requires Inv(card, st, counts) && Opens(op) && EntryOf(op).Some? && EntryOf(op).value < |card|
    requires Step(card, st, op).1.Opened?
    ensures var info := Step(card, st, op).1.info;
            && EntryOf(Close(info.startAddr, true)) == EntryOf(op)
            && info.length == |card[EntryOf(op).value]|
  {
    TagRoundTrip(EntryOf(op).value);
  }
}
