// source/stun.c: accepting a Binding response and walking its attributes.
// RFC 5389, sections 6 and 15, and RFC 5780, section 7.

module Stun {
  import opened CStrings
  import opened Bits
  import opened Alignment

  const MAGIC_COOKIE: nat := 0x2112A442
  const MAPPED_ADDRESS: nat := 0x0001
  const XOR_MAPPED_ADDRESS: nat := 0x0020
  const RESPONSE_ORIGIN: nat := 0x802B
  const OTHER_ADDRESS: nat := 0x802C
  const HEADER: nat := 20

  /** A transport address; all zero stands for none. */
  datatype Address = Address(ip: nat, port: nat)

  const NO_ADDRESS := Address(0, 0)

  datatype Found = Found(mapped: Address, origin: Address, other: Address)

  const NOTHING_FOUND := Found(NO_ADDRESS, NO_ADDRESS, NO_ADDRESS)

  function Half(hi: byte, lo: byte): nat { 256 * hi + lo }

  function Word(b: seq<byte>): nat
    requires |b| == 4
  {
    0x1_0000 * Half(b[0], b[1]) + Half(b[2], b[3])
  }

  /** `rr_stun_parse_address`: None unless at least 8 bytes of the IPv4 family. */
  function ParseAddress(value: seq<byte>, xor: bool): Option<Address> {
    if |value| < 8 || value[1] != 1 then None
    else
      var port, ip := Half(value[2], value[3]), Word(value[4..8]);
      Some(if xor then Address(Xor(ip, MAGIC_COOKIE), Xor(port, MAGIC_COOKIE / 0x1_0000)) else Address(ip, port))
  }

  datatype Attribute = Attribute(kind: nat, value: seq<byte>)

  /** What one attribute does to the result. */
  function Noted(r: Found, a: Attribute): Found {
    var address := ParseAddress(a.value, a.kind == XOR_MAPPED_ADDRESS);
    if address.None? then r
    else if a.kind == XOR_MAPPED_ADDRESS || a.kind == MAPPED_ADDRESS then r.(mapped := address.value)
    else if a.kind == RESPONSE_ORIGIN then r.(origin := address.value)
    else if a.kind == OTHER_ADDRESS then r.(other := address.value)
    else r
  }

  function AllNoted(r: Found, attributes: seq<Attribute>): Found
    decreases attributes
  {
    if attributes == [] then r else AllNoted(Noted(r, attributes[0]), attributes[1..])
  }

  /** A length brought up to a multiple of four. */
  function Padded(len: nat): (r: nat)
    ensures len <= r < len + 4
  {
    if len == 0 then 0 else if len < 4 then 4 else 4 + Padded(len - 4)
  }

  lemma {:induction false} PaddedIsMultiple(len: nat)
    ensures Padded(len) % 4 == 0
  {
    if len >= 4 {
      PaddedIsMultiple(len - 4);
    }
  }

  /** It is what `(len + 3u) & ~3u` gives. */
  lemma PaddedIsMasked(len: nat)
    requires len < 0x1_0000
    ensures Padded(len) == AlignUp(len, 4)
  {
    Powers();
    AlignUpIsCeiling(len, 2);
    PaddedIsMultiple(len);
    OneMultiple(len, Padded(len), AlignUp(len, 4));
  }

  lemma OneMultiple(len: nat, a: nat, b: nat)
    requires a % 4 == 0 && b % 4 == 0 && len <= a < len + 4 && len <= b < len + 4
    ensures a == b
  {
  }

  /** The attribute that begins at `off`, if it lies inside the bytes; its padding need not. */
  function AttributeFrom(buf: seq<byte>, off: nat): Option<Attribute> {
    if off + 4 > |buf| then None
    else
      var kind, len := Half(buf[off], buf[off + 1]), Half(buf[off + 2], buf[off + 3]);
      if off + 4 + len > |buf| then None else Some(Attribute(kind, buf[off + 4..off + 4 + len]))
  }

  /**
   * The attributes the walk visits from `off`: over any bytes it stops, and it looks at no byte outside the datagram.
   */
  function Visited(buf: seq<byte>, off: nat): seq<Attribute>
    decreases |buf| - off
  {
    match AttributeFrom(buf, off)
    case None => []
    case Some(a) => [a] + Visited(buf, off + 4 + Padded(|a.value|))
  }

  /** The result of the walk. */
  function Walked(buf: seq<byte>): Found {
    AllNoted(NOTHING_FOUND, Visited(buf, HEADER))
  }

  /** The attribute loop of `rr_stun_binding_internal_addr`. */
  method WalkAttributes(buf: seq<byte>) returns (result: Found, success: bool)
    ensures result == Walked(buf)
    ensures success <==> result.mapped != NO_ADDRESS
  {
    result := NOTHING_FOUND;
    var off := HEADER;
    while off + 4 <= |buf|
      invariant off >= HEADER
      invariant AllNoted(result, Visited(buf, off)) == Walked(buf)
      decreases |buf| - off
    {
      var kind := Half(buf[off], buf[off + 1]);
      var len := Half(buf[off + 2], buf[off + 3]);
      if off + 4 + len > |buf| {
        break;
      }
      ghost var before := result;
      var value := buf[off + 4..off + 4 + len];
      result := NoteAttribute(result, kind, value);
      OneVisit(buf, off, before, result, Attribute(kind, value));
      off := off + 4 + Padded(len);
    }
    NothingMore(buf, off, result);
    success := result.mapped.ip != 0 || result.mapped.port != 0;
  }

  /** The cases inside that loop. */
  method NoteAttribute(before: Found, kind: nat, value: seq<byte>) returns (result: Found)
    ensures result == Noted(before, Attribute(kind, value))
  {
    result := before;
    if (kind == XOR_MAPPED_ADDRESS || kind == MAPPED_ADDRESS) && |value| >= 8 && value[1] == 1 {
      result := result.(mapped := ParseAddress(value, kind == XOR_MAPPED_ADDRESS).value);
    } else if kind == RESPONSE_ORIGIN && |value| >= 8 && value[1] == 1 {
      result := result.(origin := ParseAddress(value, false).value);
    } else if kind == OTHER_ADDRESS && |value| >= 8 && value[1] == 1 {
      result := result.(other := ParseAddress(value, false).value);
    }
  }

  lemma NothingMore(buf: seq<byte>, off: nat, r: Found)
    requires AttributeFrom(buf, off).None?
    ensures AllNoted(r, Visited(buf, off)) == r
  {
  }

  lemma VisitedFrom(buf: seq<byte>, off: nat, a: Attribute)
    requires AttributeFrom(buf, off) == Some(a)
    ensures Visited(buf, off) == [a] + Visited(buf, off + 4 + Padded(|a.value|))
  {
  }

  lemma OneVisit(buf: seq<byte>, off: nat, r: Found, r': Found, a: Attribute)
    requires AttributeFrom(buf, off) == Some(a) && r' == Noted(r, a)
    ensures AllNoted(r, Visited(buf, off)) == AllNoted(r', Visited(buf, off + 4 + Padded(|a.value|)))
  {
    VisitedFrom(buf, off, a);
    FirstNoted(r, r', a, Visited(buf, off + 4 + Padded(|a.value|)));
  }

  lemma FirstNoted(r: Found, r': Found, a: Attribute, rest: seq<Attribute>)
    requires r' == Noted(r, a)
    ensures AllNoted(r, [a] + rest) == AllNoted(r', rest)
  {
    assert ([a] + rest)[1..] == rest;
  }

  // ---- Accepting a datagram ----

  datatype Reception = Datagram(bytes: seq<byte>) | Failure(code: int)

  predicate Matches(bytes: seq<byte>, transactionId: seq<byte>) {
    && |bytes| >= HEADER && bytes[0] == 1 && bytes[1] == 1
    && Half(bytes[2], bytes[3]) + HEADER <= |bytes|
    && bytes[8..20] == transactionId
  }

  /** `rr_stun_wait_for_matching_response`: the first matching datagram, unless the wait fails before it arrives. */
  method WaitForMatchingResponse(receptions: seq<Reception>, transactionId: seq<byte>) returns (index: int)
    ensures -1 <= index < |receptions|
    ensures index != -1 ==>
              (receptions[index].Failure? || Matches(receptions[index].bytes, transactionId))
              && forall i :: 0 <= i < index ==>
                   receptions[i].Datagram? && !Matches(receptions[i].bytes, transactionId)
    ensures index == -1 ==> forall i :: 0 <= i < |receptions| ==>
              receptions[i].Datagram? && !Matches(receptions[i].bytes, transactionId)
  {
    index := 0;
    while index < |receptions|
      invariant 0 <= index <= |receptions|
      invariant forall i :: 0 <= i < index ==> receptions[i].Datagram? && !Matches(receptions[i].bytes, transactionId)
    {
      if receptions[index].Failure? || Matches(receptions[index].bytes, transactionId) {
        return;
      }
      index := index + 1;
    }
    index := -1;
  }

  // ---- Well-formed responses ----

  /** An attribute as it lies in a message, with whatever padding bytes bring it to a multiple of four. */
  datatype Laid = Laid(attribute: Attribute, padding: seq<byte>)

  predicate LaidOk(l: Laid) {
    && l.attribute.kind < 0x1_0000 && |l.attribute.value| < 0x1_0000
    && |l.attribute.value| + |l.padding| == Padded(|l.attribute.value|)
  }

  function HalfBytes(h: nat): seq<byte>
    requires h < 0x1_0000
  {
    [h / 256, h % 256]
  }

  function AttributeBytes(l: Laid): seq<byte>
    requires LaidOk(l)
  {
    HalfBytes(l.attribute.kind) + HalfBytes(|l.attribute.value|) + l.attribute.value + l.padding
  }

  function AttributesBytes(laid: seq<Laid>): seq<byte>
    requires forall l :: l in laid ==> LaidOk(l)
  {
    if laid == [] then [] else AttributeBytes(laid[0]) + AttributesBytes(laid[1..])
  }

  function AttributesOf(laid: seq<Laid>): (r: seq<Attribute>)
    ensures |r| == |laid| && forall i :: 0 <= i < |r| ==> r[i] == laid[i].attribute
  {
    seq(|laid|, i requires 0 <= i < |laid| => laid[i].attribute)
  }

  lemma AttributeFields(l: Laid)
    requires LaidOk(l)
    ensures var bytes, value := AttributeBytes(l), l.attribute.value;
            && |bytes| == 4 + Padded(|value|)
            && Half(bytes[0], bytes[1]) == l.attribute.kind && Half(bytes[2], bytes[3]) == |value|
            && bytes[4..4 + |value|] == value
  {
  }

  lemma AttributeAt(buf: seq<byte>, off: nat, l: Laid)
    requires LaidOk(l) && off + |AttributeBytes(l)| <= |buf|
    requires buf[off..off + |AttributeBytes(l)|] == AttributeBytes(l)
    ensures AttributeFrom(buf, off) == Some(l.attribute)
    ensures |AttributeBytes(l)| == 4 + Padded(|l.attribute.value|)
  {
    var bytes, value := AttributeBytes(l), l.attribute.value;
    AttributeFields(l);
    assert forall i :: 0 <= i < |bytes| ==> bytes[i] == buf[off..off + |bytes|][i] == buf[off + i];
    assert bytes[0] == buf[off + 0];
    assert buf[off + 4..off + 4 + |value|] == bytes[4..4 + |value|];
  }

  /** The walk visits exactly the attributes of a padded list, in order. */
  lemma {:induction false} WalkVisitsAttributes(buf: seq<byte>, off: nat, laid: seq<Laid>)
    requires forall l :: l in laid ==> LaidOk(l)
    requires off <= |buf| && buf[off..] == AttributesBytes(laid)
    ensures Visited(buf, off) == AttributesOf(laid)
    decreases laid
  {
    if laid == [] {
      assert |buf[off..]| == 0;
    } else {
      var l, rest := laid[0], laid[1..];
      SlicesOfSuffix(buf, off, AttributeBytes(l), AttributesBytes(rest));
      var next := VisitsFirst(buf, off, l);
      WalkVisitsAttributes(buf, next, rest);
      assert AttributesOf(laid) == [l.attribute] + AttributesOf(rest);
    }
  }

  lemma VisitsFirst(buf: seq<byte>, off: nat, l: Laid) returns (next: nat)
    requires LaidOk(l) && off + |AttributeBytes(l)| <= |buf|
    requires buf[off..off + |AttributeBytes(l)|] == AttributeBytes(l)
    ensures next == off + |AttributeBytes(l)| && Visited(buf, off) == [l.attribute] + Visited(buf, next)
  {
    AttributeAt(buf, off, l);
    VisitedFrom(buf, off, l.attribute);
    next := off + 4 + Padded(|l.attribute.value|);
  }

  lemma SlicesOfSuffix(buf: seq<byte>, off: nat, first: seq<byte>, rest: seq<byte>)
    requires off <= |buf| && buf[off..] == first + rest
    ensures off + |first| <= |buf| && buf[off..off + |first|] == first && buf[off + |first|..] == rest
  {
    assert |buf[off..]| == |first| + |rest|;
    assert buf[off..off + |first|] == buf[off..][..|first|];
    assert buf[off + |first|..] == buf[off..][|first|..];
  }

  // ---- The last address of each kind ----

  function OrElse(given: Option<Address>, otherwise: Address): Address {
    if given.Some? then given.value else otherwise
  }

  /** The mapped address an attribute gives. */
  function Mapped(a: Attribute): Option<Address> {
    if a.kind == XOR_MAPPED_ADDRESS || a.kind == MAPPED_ADDRESS then ParseAddress(a.value, a.kind == XOR_MAPPED_ADDRESS)
    else None
  }

  function Origin(a: Attribute): Option<Address> {
    if a.kind == RESPONSE_ORIGIN then ParseAddress(a.value, false) else None
  }

  function Other(a: Attribute): Option<Address> {
    if a.kind == OTHER_ADDRESS then ParseAddress(a.value, false) else None
  }

  /** What the last attribute that gives anything gives. */
  function LastGiven(attributes: seq<Attribute>, gives: Attribute -> Option<Address>): Option<Address> {
    if attributes == [] then None
    else if gives(attributes[|attributes| - 1]).Some? then gives(attributes[|attributes| - 1])
    else LastGiven(attributes[..|attributes| - 1], gives)
  }

  /** The last address of each kind, where there is none the one known before. */
  function LastOfEach(r: Found, attributes: seq<Attribute>): Found {
    Found(OrElse(LastGiven(attributes, Mapped), r.mapped), OrElse(LastGiven(attributes, Origin), r.origin),
          OrElse(LastGiven(attributes, Other), r.other))
  }

  lemma {:induction false} AllNotedLast(r: Found, attributes: seq<Attribute>, a: Attribute)
    ensures AllNoted(r, attributes + [a]) == Noted(AllNoted(r, attributes), a)
    decreases attributes
  {
    if attributes == [] {
      assert ([] + [a])[1..] == [];
    } else {
      assert (attributes + [a])[1..] == attributes[1..] + [a];
      AllNotedLast(Noted(r, attributes[0]), attributes[1..], a);
    }
  }

  lemma NotedIs(r: Found, a: Attribute)
    ensures Noted(r, a) == Found(OrElse(Mapped(a), r.mapped), OrElse(Origin(a), r.origin), OrElse(Other(a), r.other))
  {
  }

  lemma {:induction false} AllNotedIs(r: Found, attributes: seq<Attribute>)
    ensures AllNoted(r, attributes) == LastOfEach(r, attributes)
  {
    if attributes != [] {
      var n := |attributes| - 1;
      AllNotedIs(r, attributes[..n]);
      AllNotedLast(r, attributes[..n], attributes[n]);
      assert attributes[..n] + [attributes[n]] == attributes;
      NotedIs(AllNoted(r, attributes[..n]), attributes[n]);
    }
  }

  /** A response of a header and a padded attribute list yields the last valid IPv4 address of each kind. */
  lemma ResponseGivesLast(header: seq<byte>, laid: seq<Laid>)
    requires |header| == HEADER && forall l :: l in laid ==> LaidOk(l)
    ensures Walked(header + AttributesBytes(laid)) == LastOfEach(NOTHING_FOUND, AttributesOf(laid))
  {
    var buf := header + AttributesBytes(laid);
    assert buf[HEADER..] == AttributesBytes(laid);
    WalkVisitsAttributes(buf, HEADER, laid);
    AllNotedIs(NOTHING_FOUND, AttributesOf(laid));
  }

  /** The value of an XOR-MAPPED-ADDRESS attribute. */
  function XorValue(a: Address): seq<byte>
    requires a.ip < WORD && a.port < 0x1_0000
  {
    XorFits(a);
    var port, ip := Xor(a.port, MAGIC_COOKIE / 0x1_0000), Xor(a.ip, MAGIC_COOKIE);
    [0, 1] + HalfBytes(port) + HalfBytes(ip / 0x1_0000) + HalfBytes(ip % 0x1_0000)
  }

  lemma XorFits(a: Address)
    requires a.ip < WORD && a.port < 0x1_0000
    ensures Xor(a.port, MAGIC_COOKIE / 0x1_0000) < 0x1_0000 && Xor(a.ip, MAGIC_COOKIE) < WORD
  {
    Powers();
    XorBound(a.port, MAGIC_COOKIE / 0x1_0000, 16);
    XorBound(a.ip, MAGIC_COOKIE, 32);
  }

  lemma HalfOfBytes(h: nat)
    requires h < 0x1_0000
    ensures Half(HalfBytes(h)[0], HalfBytes(h)[1]) == h
  {
  }

  /** Decoding undoes encoding, for every address and port. */
  lemma XorRoundTrip(a: Address)
    requires a.ip < WORD && a.port < 0x1_0000
    ensures ParseAddress(XorValue(a), true) == Some(a)
  {
    XorFits(a);
    var port, ip := Xor(a.port, MAGIC_COOKIE / 0x1_0000), Xor(a.ip, MAGIC_COOKIE);
    var value := XorValue(a);
    HalfOfBytes(port);
    HalfOfBytes(ip / 0x1_0000);
    HalfOfBytes(ip % 0x1_0000);
    assert value[4..8] == HalfBytes(ip / 0x1_0000) + HalfBytes(ip % 0x1_0000);
    assert Word(value[4..8]) == ip;
    XorTwice(a.ip, MAGIC_COOKIE);
    XorTwice(a.port, MAGIC_COOKIE / 0x1_0000);
  }

  // ---- Bytes behind the message ----

  lemma AttributeFromPrefix(buf: seq<byte>, n: nat, off: nat)
    requires n <= |buf| && AttributeFrom(buf[..n], off).Some?
    ensures AttributeFrom(buf, off) == AttributeFrom(buf[..n], off)
  {
    var front := buf[..n];
    assert front[off] == buf[off] && front[off + 1] == buf[off + 1];
    assert front[off + 2] == buf[off + 2] && front[off + 3] == buf[off + 3];
    SliceOfPrefix(buf, n, off + 4, off + 4 + Half(buf[off + 2], buf[off + 3]));
  }

  lemma SliceOfPrefix(buf: seq<byte>, n: nat, from: nat, to: nat)
    requires from <= to <= n <= |buf|
    ensures buf[..n][from..to] == buf[from..to]
  {
  }

  /** A walk over the first `n` bytes visits the first of the attributes a walk over all bytes visits. */
  lemma {:induction false} PrefixVisitsFirst(buf: seq<byte>, n: nat, off: nat)
    requires n <= |buf|
    ensures Visited(buf[..n], off) <= Visited(buf, off)
    decreases |buf| - off
  {
    if AttributeFrom(buf[..n], off).Some? {
      AttributeFromPrefix(buf, n, off);
      PrefixVisitsFirst(buf, n, off + 4 + Padded(|AttributeFrom(buf, off).value.value|));
    }
  }

  lemma {:induction false} LastGivenJoins(a: seq<Attribute>, b: seq<Attribute>, gives: Attribute -> Option<Address>)
    ensures LastGiven(a + b, gives) == if LastGiven(b, gives).Some? then LastGiven(b, gives) else LastGiven(a, gives)
  {
    if b == [] {
      assert a + b == a;
    } else {
      assert (a + b)[..|a + b| - 1] == a + b[..|b| - 1];
      LastGivenJoins(a, b[..|b| - 1], gives);
    }
  }

  /** Later attributes give no address of this kind, or the one the result has already. */
  predicate AddsNothing(inside: seq<Attribute>, behind: seq<Attribute>, gives: Attribute -> Option<Address>) {
    LastGiven(behind, gives).Some? ==> LastGiven(behind, gives).value == OrElse(LastGiven(inside, gives), NO_ADDRESS)
  }

  predicate AddNothing(inside: seq<Attribute>, behind: seq<Attribute>) {
    AddsNothing(inside, behind, Mapped) && AddsNothing(inside, behind, Origin) && AddsNothing(inside, behind, Other)
  }

  lemma JoinedIsSameIff(inside: seq<Attribute>, behind: seq<Attribute>)
    ensures (LastOfEach(NOTHING_FOUND, inside + behind) == LastOfEach(NOTHING_FOUND, inside))
              <==> AddNothing(inside, behind)
  {
    LastGivenJoins(inside, behind, Mapped);
    LastGivenJoins(inside, behind, Origin);
    LastGivenJoins(inside, behind, Other);
  }

  /** The number of bytes the header says the message has. */
  function MessageSize(buf: seq<byte>): nat
    requires |buf| >= HEADER
  {
    HEADER + Half(buf[2], buf[3])
  }

  /**
   * The walk honours the message's length if and only if the attributes it visits behind the message give, of each
   * kind, no address or the last one given inside. So it does when it visits none there.
   */
  lemma WalkHonoursLengthIff(buf: seq<byte>)
    requires |buf| >= HEADER && MessageSize(buf) <= |buf|
    ensures var message := buf[..MessageSize(buf)];
            var inside, all := Visited(message, HEADER), Visited(buf, HEADER);
            && inside <= all
            && ((Walked(buf) == Walked(message)) <==> AddNothing(inside, all[|inside|..]))
  {
    var message := buf[..MessageSize(buf)];
    var inside, all := Visited(message, HEADER), Visited(buf, HEADER);
    PrefixVisitsFirst(buf, MessageSize(buf), HEADER);
    AllNotedIs(NOTHING_FOUND, all);
    AllNotedIs(NOTHING_FOUND, inside);
    JoinedIsSameIff(inside, all[|inside|..]);
    assert inside + all[|inside|..] == all;
  }

  const HIDDEN_ADDRESS: seq<byte> := [0, 1, 0x12, 0x34, 1, 2, 3, 4]

  /** A Binding response without attributes, and a MAPPED-ADDRESS attribute behind it. */
  function Overlong(transactionId: seq<byte>): seq<byte> {
    [1, 1, 0, 0, 0x21, 0x12, 0xA4, 0x42] + transactionId + [0, 1, 0, 8] + HIDDEN_ADDRESS
  }

  /** It is accepted, and the address behind its end is taken for the mapped address. */
  lemma AddressBehindMessage(transactionId: seq<byte>) returns (buf: seq<byte>)
    requires |transactionId| == 12
    ensures Matches(buf, transactionId) && MessageSize(buf) == HEADER
    ensures Walked(buf[..MessageSize(buf)]) == NOTHING_FOUND
    ensures Walked(buf) == NOTHING_FOUND.(mapped := Address(0x0102_0304, 0x1234))
  {
    buf := OverlongBytes(transactionId);
    HiddenIsVisited(buf);
    HiddenIsNoted();
    assert Visited(buf[..MessageSize(buf)], HEADER) == [];
  }

  lemma HiddenIsVisited(buf: seq<byte>)
    requires |buf| == 32 && buf[24..32] == HIDDEN_ADDRESS
    requires Half(buf[20], buf[21]) == MAPPED_ADDRESS && Half(buf[22], buf[23]) == 8
    ensures Visited(buf, HEADER) == [Attribute(MAPPED_ADDRESS, HIDDEN_ADDRESS)]
  {
    VisitedFrom(buf, HEADER, Attribute(MAPPED_ADDRESS, HIDDEN_ADDRESS));
    assert Visited(buf, 32) == [];
  }

  lemma HiddenIsNoted()
    ensures AllNoted(NOTHING_FOUND, [Attribute(MAPPED_ADDRESS, HIDDEN_ADDRESS)])
              == NOTHING_FOUND.(mapped := Address(0x0102_0304, 0x1234))
  {
    var a := Attribute(MAPPED_ADDRESS, HIDDEN_ADDRESS);
    HiddenAddressParses();
    FirstNoted(NOTHING_FOUND, Noted(NOTHING_FOUND, a), a, []);
    assert [a] + [] == [a];
  }

  lemma OverlongBytes(transactionId: seq<byte>) returns (buf: seq<byte>)
    requires |transactionId| == 12
    ensures |buf| == 32 && Matches(buf, transactionId) && MessageSize(buf) == HEADER
    ensures Half(buf[20], buf[21]) == MAPPED_ADDRESS && Half(buf[22], buf[23]) == 8 && buf[24..32] == HIDDEN_ADDRESS
  {
    buf := Overlong(transactionId);
    assert buf[8..20] == transactionId;
    assert buf[20..] == [0, 1, 0, 8] + HIDDEN_ADDRESS;
    assert buf[20] == buf[20..][0] && buf[21] == buf[20..][1] && buf[22] == buf[20..][2] && buf[23] == buf[20..][3];
  }

  lemma HiddenAddressParses()
    ensures Noted(NOTHING_FOUND, Attribute(MAPPED_ADDRESS, HIDDEN_ADDRESS))
              == NOTHING_FOUND.(mapped := Address(0x0102_0304, 0x1234))
  {
    assert HIDDEN_ADDRESS[4..8] == [1, 2, 3, 4];
  }
}
