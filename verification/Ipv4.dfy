/** IPv4 headers and packets (net/ipv4.h, net/ipv4.c): layout, checksum field, flag field. */
module Ipv4 {
  import opened Bits
  import opened Checksum

  const HEADER: nat := 20

  type Addr = a: seq<byte> | |a| == 4 witness [0, 0, 0, 0]

  datatype Header = Header(
    versionIhl: byte, tos: byte, totalLength: u16, id: u16, flagsOffset: u16,
    ttl: byte, protocol: byte, checksum: u16, src: Addr, dest: Addr)

  /** A packet whose data is a header followed by `payload`; its length counts both. */
  datatype Packet = Packet(h: Header, payload: seq<byte>)

  /** The packed struct as the host stores it. */
  function Bytes(h: Header): (b: seq<byte>)
    ensures |b| == HEADER
  {
    [h.versionIhl, h.tos, LowByte(h.totalLength), HighByte(h.totalLength), LowByte(h.id), HighByte(h.id),
     LowByte(h.flagsOffset), HighByte(h.flagsOffset), h.ttl, h.protocol, LowByte(h.checksum), HighByte(h.checksum)]
    + h.src + h.dest
  }

  /** The wire layout: every field at its bytes, least significant first. */
  lemma {:induction false} BytesLayout(h: Header)
    ensures var b := Bytes(h);
      && b[0] == h.versionIhl && b[1] == h.tos
      && b[2] == h.totalLength % 0x100 && b[3] == h.totalLength / 0x100
      && b[4] == h.id % 0x100 && b[5] == h.id / 0x100
      && b[6] == h.flagsOffset % 0x100 && b[7] == h.flagsOffset / 0x100
      && b[8] == h.ttl && b[9] == h.protocol
      && b[10] == h.checksum % 0x100 && b[11] == h.checksum / 0x100
      && b[12..16] == h.src && b[16..20] == h.dest
  {}

  /** The fields as the 16-bit words of the header. */
  function FieldSum(h: Header): nat {
    (h.versionIhl as nat) + 0x100 * (h.tos as nat) + (h.totalLength as nat) + (h.id as nat) + (h.flagsOffset as nat)
    + (h.ttl as nat) + 0x100 * (h.protocol as nat) + (h.checksum as nat)
    + AddrSum(h.src) + AddrSum(h.dest)
  }

  function AddrSum(a: Addr): nat {
    (a[0] as nat) + 0x100 * (a[1] as nat) + (a[2] as nat) + 0x100 * (a[3] as nat)
  }

  lemma {:induction false} SumOfFields(h: Header)
    ensures SumWords(Bytes(h)) == FieldSum(h)
  {
    var b := Bytes(h);
    hide SumWords, LowByte, HighByte, Bytes;
    BytesAre(h);
    LowHigh(h.totalLength);
    LowHigh(h.id);
    LowHigh(h.flagsOffset);
    LowHigh(h.checksum);
    assert b == b[0..4] + (b[4..8] + (b[8..12] + (b[12..16] + b[16..20])));
    SumWordsConcat(b[0..4], b[4..8] + (b[8..12] + (b[12..16] + b[16..20])));
    SumWordsConcat(b[4..8], b[8..12] + (b[12..16] + b[16..20]));
    SumWordsConcat(b[8..12], b[12..16] + b[16..20]);
    SumWordsConcat(b[12..16], b[16..20]);
    FourBytesSum(b[0..4]);
    FourBytesSum(b[4..8]);
    FourBytesSum(b[8..12]);
    FourBytesSum(b[12..16]);
    FourBytesSum(b[16..20]);
  }

  lemma {:induction false} BytesAre(h: Header)
    ensures var b := Bytes(h);
      && b[0..4] == [h.versionIhl, h.tos, LowByte(h.totalLength), HighByte(h.totalLength)]
      && b[4..8] == [LowByte(h.id), HighByte(h.id), LowByte(h.flagsOffset), HighByte(h.flagsOffset)]
      && b[8..12] == [h.ttl, h.protocol, LowByte(h.checksum), HighByte(h.checksum)]
      && b[12..16] == h.src && b[16..20] == h.dest
  {}

  /** The checksum the source computes: over the header with the field zeroed. */
  function HeaderChecksum(h: Header): u16 {
    InternetChecksum(Bytes(h.(checksum := 0)))
  }

  /** Every writer finishes a header this way. */
  function Sealed(h: Header): Header {
    h.(checksum := HeaderChecksum(h))
  }

  /** The test of ipv4_receive_packet. */
  predicate Accepted(h: Header) {
    HeaderChecksum(h) == h.checksum
  }

  lemma {:induction false} ChecksumField(h: Header, c: u16)
    ensures Bytes(h.(checksum := c)) == SetWord(Bytes(h), 10, c)
  {}

  /** The checksum in terms of the fields: it and their sum are 0 modulo 65535, and it is 0xFFFF only
      when every other field is 0. */
  lemma {:induction false} ChecksumOfFields(h: Header)
    ensures (HeaderChecksum(h) as nat + FieldSum(h.(checksum := 0))) % 65535 == 0
    ensures HeaderChecksum(h) == 0xFFFF <==> FieldSum(h.(checksum := 0)) == 0
  {
    hide OnesSum, SumWords, Bytes, FieldSum;
    var b := Bytes(h.(checksum := 0));
    OnesSumMod(b);
    SumOfFields(h.(checksum := 0));
    var s, c := SumWords(b), OnesSum(b);
    assert s + (0xFFFF - c) == 65535 * (s / 65535 - c / 65535 + 1) + 0 by {
      assert s % 65535 == c % 65535;
    }
    Multiple(s / 65535 - c / 65535 + 1);
  }

  lemma {:induction false} Multiple(q: int)
    ensures (65535 * q) % 65535 == 0
  {}

  /** Two checksums are equal if they agree modulo 65535 and about being 0xFFFF. */
  lemma {:induction false} ChecksumIs(h: Header, c: u16)
    requires (c as nat + FieldSum(h.(checksum := 0))) % 65535 == 0
    requires c == 0xFFFF <==> FieldSum(h.(checksum := 0)) == 0
    ensures HeaderChecksum(h) == c
  {
    hide FieldSum, HeaderChecksum;
    ChecksumOfFields(h);
    var f, a := FieldSum(h.(checksum := 0)), HeaderChecksum(h);
    SameResidue(a, c, f);
  }

  lemma {:induction false} SameResidue(a: u16, c: u16, f: nat)
    requires (a as nat + f) % 65535 == 0 && (c as nat + f) % 65535 == 0 && (a == 0xFFFF <==> c == 0xFFFF)
    ensures a == c
  {
    var p, q := (a as nat + f) / 65535, (c as nat + f) / 65535;
    assert (a as int) - (c as int) == 65535 * (p - q);
  }

  /** One less TTL raises the checksum by one, in one's complement arithmetic. */
  lemma {:induction false} ForwardIncrement(h: Header)
    requires h.ttl > 1
    ensures HeaderChecksum(h.(ttl := h.ttl - 1)) == if HeaderChecksum(h) == 0xFFFE then 0 else HeaderChecksum(h) + 1
  {
    hide HeaderChecksum;
    var g := h.(ttl := h.ttl - 1);
    var f, c := FieldSum(h.(checksum := 0)), HeaderChecksum(h);
    ChecksumOfFields(h);
    assert FieldSum(g.(checksum := 0)) == f - 1 && f > 1;
    hide FieldSum;
    var c': u16 := if c == 0xFFFE then 0 else c + 1;
    var q := (c as nat + f) / 65535;
    assert c as nat + f == 65535 * q;
    Multiple(q);
    Multiple(q - 1);
    ChecksumIs(g, c');
  }

  /** A sealed header passes the receive test and the RFC 1071 test on the whole header. */
  lemma {:induction false} SealedIsAccepted(h: Header)
    ensures Accepted(Sealed(h)) && InternetChecksum(Bytes(Sealed(h))) == 0
  {
    hide InternetChecksum, Bytes;
    ChecksumField(h, 0);
    ChecksumField(h, HeaderChecksum(h));
    assert Sealed(h).(checksum := 0) == h.(checksum := 0);
    StoredChecksumVerifies(Bytes(h), 10);
  }

  lemma {:induction false} SealedAgain(h: Header)
    requires h.ttl > 1
    ensures Sealed(h.(ttl := h.ttl - 1)) == h.(ttl := h.ttl - 1, checksum := HeaderChecksum(h.(ttl := h.ttl - 1)))
  {}

  /** The receive test is stricter than RFC 1071: it also refuses a stored 0xFFFF where 0 is due. */
  lemma {:induction false} AcceptedExactly(h: Header)
    ensures InternetChecksum(Bytes(h)) == 0 <==> Accepted(h) || (HeaderChecksum(h) == 0 && h.checksum == 0xFFFF)
  {
    hide InternetChecksum, Bytes;
    ChecksumField(h, 0);
    ChecksumField(h, h.checksum);
    WholeSumIsZero(Bytes(h), 10, h.checksum);
  }

  /** The flag and offset field: 13 bits of offset in eight-byte units, then MF, then DF. */
  function OffsetUnits(h: Header): nat { h.flagsOffset % 0x2000 }

  predicate MoreFragments(h: Header) { (h.flagsOffset / 0x2000) % 2 == 1 }

  predicate DontFragment(h: Header) { (h.flagsOffset / 0x4000) % 2 == 1 }

  lemma {:induction false} FlagBits(f: u16)
    ensures And(f, 0x1FFF) == f % 0x2000
    ensures And(f, 0x2000) != 0 <==> (f / 0x2000) % 2 == 1
    ensures And(f, 0x4000) != 0 <==> (f / 0x4000) % 2 == 1
  {
    hide And;
    assert Pow2(13) == 0x2000 && Pow2(14) == 0x4000 by {
      Pow2Values();
    }
    AndIsLowBits(f, 13);
    AndSingleBit(f, 13);
    AndSingleBit(f, 14);
    BitIsDiv(f, 13);
    BitIsDiv(f, 14);
  }

  /** The offset and the two flags of a header are the ones the source masks out. */
  lemma {:induction false} HeaderFlags(h: Header)
    ensures OffsetUnits(h) == And(h.flagsOffset, 0x1FFF)
    ensures MoreFragments(h) <==> And(h.flagsOffset, 0x2000) != 0
    ensures DontFragment(h) <==> And(h.flagsOffset, 0x4000) != 0
  {
    hide And;
    FlagBits(h.flagsOffset);
  }

  lemma {:induction false} PackFlags(units: nat)
    requires units < 0x2000
    ensures Or(units, 0x2000) == units + 0x2000
  {
    hide Or;
    assert Pow2(13) == 0x2000 by {
      Pow2Values();
    }
    OrCommutes(units, 0x2000);
    OrIsPack(0x2000, units, 13);
  }

  /** The header ipv4_send_packet writes; length and identification are 16-bit fields. */
  method BuildHeader(length: u32, id: u16, ttl: byte, protocol: byte, src: Addr, dest: Addr)
    returns (h: Header, nextId: u16)
    ensures var sentTtl := if ttl != 0 then ttl else 64;
      h == Sealed(Header(0x45, 0, (HEADER + length) % U16, id, 0, sentTtl, protocol, 0, src, dest))
    ensures Accepted(h) && nextId == (id + 1) % U16
  {
    hide InternetChecksum, Bytes;
    h := Header(0x45, 0, (HEADER + length) % U16, id, 0, if ttl != 0 then ttl else 64, protocol, 0, src, dest);
    SealedIsAccepted(h);
    var c := Ipv4Checksum(Bytes(h));
    h := h.(checksum := c);
    nextId := (id + 1) % U16;
  }

  /** The header part of ipv4_forward_packet. */
  method ForwardHeader(h: Header) returns (ok: bool, h': Header)
    ensures ok <==> h.ttl > 1
    ensures ok ==> h' == Sealed(h.(ttl := h.ttl - 1)) && Accepted(h')
    ensures ok && Accepted(h) ==>
      h' == h.(ttl := h.ttl - 1, checksum := (h.checksum as nat + 1) % 0xFFFF)
    ensures !ok ==> h' == h
  {
    hide InternetChecksum, Bytes;
    if h.ttl <= 1 {
      return false, h;
    }
    ForwardIncrement(h);
    SealedAgain(h);
    h' := h.(ttl := h.ttl - 1, checksum := 0);
    var c := Ipv4Checksum(Bytes(h'));
    SealedIsAccepted(h');
    assert Sealed(h') == Sealed(h.(ttl := h.ttl - 1)) by {
      assert h'.(checksum := 0) == h.(ttl := h.ttl - 1).(checksum := 0);
    }
    return true, h'.(checksum := c);
  }

  /** The checksum test of ipv4_receive_packet. */
  method ReceiveCheck(h: Header) returns (ok: bool)
    ensures ok == Accepted(h)
  {
    hide InternetChecksum, Bytes;
    var c := Ipv4Checksum(Bytes(h.(checksum := 0)));
    ok := c == h.checksum;
  }
}
