// source/stun.c: accepted messages, addresses and attributes with the numbers of RFC 5389 and RFC 5780 written out.

module StunLaws {
  import opened Bits
  import opened CStrings
  import opened Stun

  // ---- Accepting a message ----

  /** A STUN message as RFC 5389, section 6, lays it out. */
  function Message(kind: nat, length: nat, cookie: seq<byte>, transactionId: seq<byte>, body: seq<byte>): seq<byte>
    requires kind < 0x1_0000 && length < 0x1_0000
  {
    [kind / 256, kind % 256, length / 256, length % 256] + cookie + transactionId + body
  }

  /**
   * Accepted is exactly a Binding success response to this request whose length is not more than what arrived,
   * whatever stands for the magic cookie. So one of exactly that length is.
   */
  lemma AcceptedIff(kind: nat, length: nat, cookie: seq<byte>, sent: seq<byte>, wanted: seq<byte>, body: seq<byte>)
    requires kind < 0x1_0000 && length < 0x1_0000 && |cookie| == 4 && |sent| == 12
    ensures Matches(Message(kind, length, cookie, sent, body), wanted) <==>
            kind == 0x0101 && length <= |body| && sent == wanted
  {
    var m := Message(kind, length, cookie, sent, body);
    assert m[8..20] == sent;
    assert m[0] == kind / 256 && m[1] == kind % 256 && m[2] == length / 256 && m[3] == length % 256;
  }

  /** What is shorter than a header is not. */
  lemma ShortIsDiscarded(bytes: seq<byte>, wanted: seq<byte>)
    requires |bytes| < 20
    ensures !Matches(bytes, wanted)
  {
  }

  // ---- Addresses ----

  /** The number whose digits to the base 256 these are, the highest first. */
  function Digits(b: seq<byte>): nat {
    if b == [] then 0 else 256 * Digits(b[..|b| - 1]) + b[|b| - 1]
  }

  lemma DigitsMore(b: seq<byte>, last: byte)
    ensures Digits(b + [last]) == 256 * Digits(b) + last
  {
    assert (b + [last])[..|b|] == b;
  }

  lemma TwoDigits(b: seq<byte>)
    requires |b| == 2
    ensures Half(b[0], b[1]) == Digits(b)
  {
    DigitsMore([], b[0]);
    DigitsMore([b[0]], b[1]);
    assert b == [b[0]] + [b[1]] && [] + [b[0]] == [b[0]];
  }

  lemma FourDigits(b: seq<byte>)
    requires |b| == 4
    ensures Word(b) == Digits(b)
  {
    TwoDigits(b[..2]);
    DigitsMore(b[..2], b[2]);
    DigitsMore(b[..3], b[3]);
    assert b[..3] == b[..2] + [b[2]] && b == b[..3] + [b[3]];
  }

  /** Port and address lie big-endian behind the family. */
  lemma PlainAddressIs(value: seq<byte>)
    requires |value| >= 8 && value[1] == 0x01
    ensures ParseAddress(value, false) == Some(Address(Digits(value[4..8]), Digits(value[2..4])))
  {
    TwoDigits(value[2..4]);
    FourDigits(value[4..8]);
  }

  /** In an XOR address both are XORed with the magic cookie, the port with its upper half. */
  lemma XorAddressIs(value: seq<byte>)
    requires |value| >= 8 && value[1] == 0x01
    ensures ParseAddress(value, true)
              == Some(Address(Xor(Digits(value[4..8]), 0x2112A442), Xor(Digits(value[2..4]), 0x2112)))
  {
    TwoDigits(value[2..4]);
    FourDigits(value[4..8]);
  }

  /** Bit `k` of a XOR is set exactly where bit `k` of its operands differs. */
  lemma {:induction false} XorBitByBit(a: nat, b: nat, k: nat)
    ensures Shr(Xor(a, b), k) % 2 == 1 <==> Shr(a, k) % 2 != Shr(b, k) % 2
  {
    XorHalves(a, b);
    if k > 0 {
      XorBitByBit(a / 2, b / 2, k - 1);
    }
  }

  /** Less than eight bytes, and any family but IPv4, give no address. */
  lemma NoAddressIff(value: seq<byte>, xor: bool)
    ensures ParseAddress(value, xor).None? <==> |value| < 8 || value[1] != 0x01
  {
  }

  // ---- Attributes ----

  lemma MappedIsNoted(r: Found, value: seq<byte>)
    requires |value| >= 8 && value[1] == 0x01
    ensures Noted(r, Attribute(0x0001, value)) == r.(mapped := ParseAddress(value, false).value)
    ensures Noted(r, Attribute(0x0020, value)) == r.(mapped := ParseAddress(value, true).value)
  {
  }

  lemma OriginAndOtherAreNoted(r: Found, value: seq<byte>)
    requires |value| >= 8 && value[1] == 0x01
    ensures Noted(r, Attribute(0x802B, value)) == r.(origin := ParseAddress(value, false).value)
    ensures Noted(r, Attribute(0x802C, value)) == r.(other := ParseAddress(value, false).value)
  {
  }

  /** All other attributes, and those without an IPv4 address, leave the result as it is. */
  lemma OthersAreIgnored(r: Found, a: Attribute)
    requires a.kind !in [0x0001, 0x0020, 0x802B, 0x802C] || |a.value| < 8 || a.value[1] != 0x01
    ensures Noted(r, a) == r
  {
    var kinds := [0x0001, 0x0020, 0x802B, 0x802C];
    assert kinds[0] == 0x0001 && kinds[1] == 0x0020 && kinds[2] == 0x802B && kinds[3] == 0x802C;
  }

  /** An attribute's value lies behind its four-byte header, and the next one behind the value's padding. */
  lemma AttributeIs(before: seq<byte>, kind: nat, value: seq<byte>, padding: seq<byte>, behind: seq<byte>)
    requires kind < 0x1_0000 && |value| < 0x1_0000
    requires |padding| < 4 && (|value| + |padding|) % 4 == 0
    ensures var start := before + [kind / 256, kind % 256, |value| / 256, |value| % 256];
            Visited(start + value + padding + behind, |before|)
              == [Attribute(kind, value)]
                   + Visited(start + value + padding + behind, |start| + |value| + |padding|)
  {
    var start := before + [kind / 256, kind % 256, |value| / 256, |value| % 256];
    var buf, n := start + value + padding + behind, |before|;
    assert buf[n] == start[n] && buf[n + 1] == start[n + 1] && buf[n + 2] == start[n + 2] && buf[n + 3] == start[n + 3];
    assert buf[n + 4..n + 4 + |value|] == value;
    PaddedIsMultiple(|value|);
    OneMultiple(|value|, Padded(|value|), |value| + |padding|);
    VisitedFrom(buf, n, Attribute(kind, value));
  }
}
