/** ipv4_fragment_packet (net/ipv4.c) and why its fragments tile the payload. */
module Fragmentation {
  import opened Bits
  import opened Checksum
  import opened Common
  import opened Ipv4

  /** Payload bytes per fragment: what fits the MTU, rounded down to a multiple of eight. */
  function MaxData(mtu: u16): nat
    requires mtu >= HEADER
  {
    (mtu - HEADER) - (mtu - HEADER) % 8
  }

  function NumFragments(length: nat, maxData: nat): (n: nat)
    requires maxData > 0
    ensures n == 0 <==> length == 0
    ensures length > 0 ==> (n - 1) * maxData < length <= n * maxData
  {
    var n := (length + maxData - 1) / maxData;
    Rounding(length + maxData - 1, maxData);
    n
  }

  lemma {:induction false} Rounding(x: nat, m: nat)
    requires m > 0
    ensures (x / m) * m <= x < (x / m) * m + m
  {
    assert x == m * (x / m) + x % m;
  }

  /** Fragment i of a packet: a slice of the payload under a copy of the header. */
  function FragmentAt(p: Packet, maxData: nat, i: nat): (f: Packet)
    requires maxData % 8 == 0 && maxData > 0 && |p.payload| < U16 - HEADER && i < NumFragments(|p.payload|, maxData)
  {
    var n := NumFragments(|p.payload|, maxData);
    SliceBounds(|p.payload|, maxData, i);
    var from, to := i * maxData, Min((i + 1) * maxData, |p.payload|);
    var flags := from / 8 + (if i < n - 1 then 0x2000 else 0);
    Packet(Sealed(p.h.(flagsOffset := flags, totalLength := HEADER + (to - from))), p.payload[from..to])
  }

  lemma {:induction false} SliceBounds(length: nat, maxData: nat, i: nat)
    requires maxData > 0 && length < U16 && i < NumFragments(length, maxData)
    ensures i * maxData < length && i * maxData < (i + 1) * maxData
    ensures (i * maxData) / 8 < 0x2000
    ensures i < NumFragments(length, maxData) - 1 ==> (i + 1) * maxData < length
    ensures i == NumFragments(length, maxData) - 1 ==> length <= (i + 1) * maxData
  {
    var n := NumFragments(length, maxData);
    Grows(i, n - 1, maxData);
    if i < n - 1 {
      Grows(i + 1, n - 1, maxData);
    }
    assert (i + 1) * maxData == i * maxData + maxData;
  }

  lemma {:induction false} Grows(i: nat, j: nat, m: nat)
    requires i <= j
    ensures i * m <= j * m
  {}

  /** All fragments, in the order they are sent. */
  function Fragments(p: Packet, maxData: nat, n: nat): (fs: seq<Packet>)
    requires maxData % 8 == 0 && maxData > 0 && |p.payload| < U16 - HEADER && n <= NumFragments(|p.payload|, maxData)
    ensures |fs| == n
    ensures forall i | 0 <= i < n :: fs[i] == FragmentAt(p, maxData, i)
  {
    if n == 0 then [] else Fragments(p, maxData, n - 1) + [FragmentAt(p, maxData, n - 1)]
  }

  function FragmentsOf(p: Packet, mtu: u16): seq<Packet>
    requires mtu >= 28 && |p.payload| < U16 - HEADER
  {
    MaxDataOk(mtu);
    Fragments(p, MaxData(mtu), NumFragments(|p.payload|, MaxData(mtu)))
  }

  lemma {:induction false} MaxDataOk(mtu: u16)
    requires mtu >= 28
    ensures MaxData(mtu) >= 8 && MaxData(mtu) % 8 == 0 && HEADER + MaxData(mtu) <= mtu
  {
    var x := mtu - HEADER;
    DivModUnique(x - x % 8, 8, x / 8, 0);
  }

  lemma {:induction false} MaskIsMaxData(mtu: u16)
    requires mtu >= HEADER
    ensures And(mtu - HEADER, Not32(7)) == MaxData(mtu)
  {
    hide And;
    assert Pow2(3) == 8 && Pow2(32) == U32 by {
      Pow2Values();
    }
    AndIsHighBits(mtu - HEADER, 32, 3);
  }

  function Concat(fs: seq<Packet>): seq<byte> {
    if fs == [] then [] else Concat(fs[..|fs| - 1]) + fs[|fs| - 1].payload
  }

  /** Where fragment i of a payload starts, and where the last one ends. */
  function Cut(length: nat, maxData: nat, i: nat): (c: nat)
    ensures c <= length
  {
    Min(i * maxData, length)
  }

  lemma {:induction false} FragmentSlice(p: Packet, maxData: nat, i: nat)
    requires maxData % 8 == 0 && maxData > 0 && |p.payload| < U16 - HEADER && i < NumFragments(|p.payload|, maxData)
    ensures Cut(|p.payload|, maxData, i) < Cut(|p.payload|, maxData, i + 1)
    ensures var from, to := Cut(|p.payload|, maxData, i), Cut(|p.payload|, maxData, i + 1);
      FragmentAt(p, maxData, i).payload == p.payload[from..to]
  {
    hide NumFragments, Sealed;
    SliceBounds(|p.payload|, maxData, i);
  }

  /** The first n fragments carry exactly the first n * maxData bytes. */
  lemma {:induction false} PrefixTiles(p: Packet, maxData: nat, n: nat)
    requires maxData % 8 == 0 && maxData > 0 && |p.payload| < U16 - HEADER && n <= NumFragments(|p.payload|, maxData)
    ensures Concat(Fragments(p, maxData, n)) == p.payload[..Cut(|p.payload|, maxData, n)]
  {
    hide NumFragments, FragmentAt, Concat, Fragments;
    ConcatStep(p, maxData, n);
    if n > 0 {
      hide Cut;
      PrefixTiles(p, maxData, n - 1);
      FragmentSlice(p, maxData, n - 1);
      var from, to := Cut(|p.payload|, maxData, n - 1), Cut(|p.payload|, maxData, n);
      assert p.payload[..from] + p.payload[from..to] == p.payload[..to];
    }
  }

  lemma {:induction false} ConcatStep(p: Packet, maxData: nat, n: nat)
    requires maxData % 8 == 0 && maxData > 0 && |p.payload| < U16 - HEADER && n <= NumFragments(|p.payload|, maxData)
    ensures n == 0 ==> Concat(Fragments(p, maxData, n)) == []
    ensures n > 0 ==>
      Concat(Fragments(p, maxData, n)) == Concat(Fragments(p, maxData, n - 1)) + FragmentAt(p, maxData, n - 1).payload
  {
    hide NumFragments, FragmentAt;
    if n > 0 {
      assert Fragments(p, maxData, n)[..n - 1] == Fragments(p, maxData, n - 1);
    }
  }

  /** One fragment of the packet is well formed. */
  ghost predicate GoodFragment(p: Packet, mtu: u16, fs: seq<Packet>, i: nat)
    requires i < |fs|
  {
    var f := fs[i];
    && |f.payload| > 0 && f.h.totalLength == HEADER + |f.payload| <= mtu
    && f.h == p.h.(flagsOffset := f.h.flagsOffset, totalLength := f.h.totalLength, checksum := f.h.checksum)
    && Accepted(f.h) && !DontFragment(f.h)
    && OffsetUnits(f.h) * 8 == |Concat(fs[..i])|
    && (MoreFragments(f.h) <==> i < |fs| - 1)
    && (i < |fs| - 1 ==>
        |f.payload| % 8 == 0 && |f.payload| == |fs[0].payload| && mtu < HEADER + |f.payload| + 8)
  }

  /** In order, the fragments concatenate to the payload; each fits the MTU and carries its own
      offset; all but the last have the same size, a multiple of eight, and the MF flag. */
  lemma {:induction false} FragmentsTile(p: Packet, mtu: u16)
    requires mtu >= 28 && |p.payload| < U16 - HEADER
    ensures Concat(FragmentsOf(p, mtu)) == p.payload
    ensures forall i | 0 <= i < |FragmentsOf(p, mtu)| :: GoodFragment(p, mtu, FragmentsOf(p, mtu), i)
  {
    hide Sealed, GoodFragment, FragmentAt, NumFragments;
    MaxDataOk(mtu);
    var m := MaxData(mtu);
    var n := NumFragments(|p.payload|, m);
    PrefixTiles(p, m, n);
    var fs := FragmentsOf(p, mtu);
    forall i | 0 <= i < n
      ensures GoodFragment(p, mtu, fs, i)
    {
      FragmentIsGood(p, mtu, i);
    }
  }

  lemma {:induction false} FlagFields(units: nat, more: bool)
    requires units < 0x2000
    ensures var f := units + (if more then 0x2000 else 0);
      f % 0x2000 == units && ((f / 0x2000) % 2 == 1 <==> more) && (f / 0x4000) % 2 == 0
  {}

  /** What one fragment holds, before its place in the list is considered. */
  lemma {:induction false} FragmentFields(p: Packet, m: nat, i: nat)
    requires m % 8 == 0 && m > 0 && |p.payload| < U16 - HEADER && i < NumFragments(|p.payload|, m)
    ensures var f := FragmentAt(p, m, i);
      && |f.payload| == Min((i + 1) * m, |p.payload|) - i * m > 0 && f.h.totalLength == HEADER + |f.payload|
      && f.h == p.h.(flagsOffset := f.h.flagsOffset, totalLength := f.h.totalLength, checksum := f.h.checksum)
      && Accepted(f.h) && !DontFragment(f.h)
      && OffsetUnits(f.h) * 8 == i * m
      && (MoreFragments(f.h) <==> i < NumFragments(|p.payload|, m) - 1)
  {
    hide HeaderChecksum, NumFragments;
    SliceBounds(|p.payload|, m, i);
    var f := FragmentAt(p, m, i);
    FlagFields((i * m) / 8, i < NumFragments(|p.payload|, m) - 1);
    MultipleOfEight(i, m);
    SealedIsAccepted(p.h.(flagsOffset := f.h.flagsOffset, totalLength := f.h.totalLength));
  }

  lemma {:induction false} FragmentIsGood(p: Packet, mtu: u16, i: nat)
    requires mtu >= 28 && |p.payload| < U16 - HEADER && i < |FragmentsOf(p, mtu)|
    ensures GoodFragment(p, mtu, FragmentsOf(p, mtu), i)
  {
    hide Sealed, Accepted, NumFragments, FragmentAt, DontFragment, MoreFragments, OffsetUnits;
    MaxDataOk(mtu);
    var m, length := MaxData(mtu), |p.payload|;
    var fs := FragmentsOf(p, mtu);
    FragmentFields(p, m, i);
    FragmentFields(p, m, 0);
    SliceBounds(length, m, i);
    SliceBounds(length, m, 0);
    PrefixOfAll(p, mtu, i);
    PrefixTiles(p, m, i);
    assert (i + 1) * m == i * m + m;
  }

  lemma {:induction false} MultipleOfEight(i: nat, m: nat)
    requires m % 8 == 0
    ensures (i * m) % 8 == 0
  {
    assert i * m == 8 * (i * (m / 8));
    DivModUnique(i * m, 8, i * (m / 8), 0);
  }

  /** ipv4_fragment_packet. The environment accepts `budget` fragments before an allocation or a
      send fails; an allocation of more than 1518 bytes always fails. */
  method FragmentPacket(p: Packet, mtu: u16, budget: nat) returns (ok: bool, sent: seq<Packet>)
    requires mtu >= 28 && HEADER + |p.payload| < U16
    ensures sent <= FragmentsOf(p, mtu)
    ensures ok ==> sent == FragmentsOf(p, mtu)
    ensures ok <==>
      && !DontFragment(p.h)
      && |FragmentsOf(p, mtu)| <= budget
      && (|p.payload| > 0 ==> |FragmentsOf(p, mtu)[0].payload| <= 1498)
  {
    hide And, InternetChecksum, Bytes, Sealed;
    sent := [];
    FlagBits(p.h.flagsOffset);
    MaxDataOk(mtu);
    if And(p.h.flagsOffset, 0x4000) != 0 {
      return false, sent;
    }
    MaskIsMaxData(mtu);
    var maxData := And(mtu - HEADER, Not32(7));
    var dataLen: u16 := |p.payload|;
    var numFragments := (dataLen + maxData - 1) / maxData;
    ghost var fs := FragmentsOf(p, mtu);
    var offset: nat := 0;
    var i := 0;
    while i < numFragments
      invariant 0 <= i <= numFragments == NumFragments(dataLen, maxData)
      invariant i < numFragments ==> offset == i * maxData
      invariant sent == Fragments(p, maxData, i) && i <= budget
      invariant i > 0 ==> |FragmentAt(p, maxData, 0).payload| <= MAX_PACKET - HEADER
    {
      SliceBounds(dataLen, maxData, i);
      SliceBounds(dataLen, maxData, 0);
      var fragSize := if i == numFragments - 1 then dataLen - offset else maxData;
      assert offset + fragSize == Min((i + 1) * maxData, dataLen);
      PrefixOfAll(p, mtu, i);
      if HEADER + fragSize > MAX_PACKET || i >= budget {
        return false, sent;
      }
      var frag := MakeFragment(p, maxData, i, offset, fragSize, i < numFragments - 1);
      sent := sent + [frag];
      offset := offset + fragSize;
      i := i + 1;
    }
    return true, sent;
  }

  /** The body of the loop: copy the header, set flags, offset, length and checksum, copy the data. */
  method MakeFragment(p: Packet, ghost maxData: nat, ghost i: nat, offset: nat, fragSize: nat, more: bool)
    returns (frag: Packet)
    requires maxData % 8 == 0 && maxData > 0 && |p.payload| < U16 - HEADER && i < NumFragments(|p.payload|, maxData)
    requires offset == i * maxData && offset / 8 < 0x2000 && more == (i < NumFragments(|p.payload|, maxData) - 1)
    requires fragSize > 0 && offset + fragSize == Min((i + 1) * maxData, |p.payload|)
    ensures frag == FragmentAt(p, maxData, i)
  {
    hide And, Or, InternetChecksum, Bytes, NumFragments;
    PackFlags(offset / 8);
    var h := p.h.(flagsOffset := offset / 8);
    if more {
      h := h.(flagsOffset := Or(h.flagsOffset, 0x2000));
    }
    h := h.(totalLength := HEADER + fragSize, checksum := 0);
    var c := Ipv4Checksum(Bytes(h));
    frag := Packet(h.(checksum := c), p.payload[offset..offset + fragSize]);
    SealedAgain(p.h, h, c);
  }

  lemma {:induction false} SealedAgain(h0: Header, h: Header, c: u16)
    requires h.checksum == 0 && c == InternetChecksum(Bytes(h))
    requires h == h0.(flagsOffset := h.flagsOffset, totalLength := h.totalLength, checksum := 0)
    ensures h.(checksum := c) == Sealed(h0.(flagsOffset := h.flagsOffset, totalLength := h.totalLength))
  {
    assert h0.(flagsOffset := h.flagsOffset, totalLength := h.totalLength).(checksum := 0) == h;
  }

  lemma {:induction false} PrefixOfAll(p: Packet, mtu: u16, i: nat)
    requires mtu >= 28 && |p.payload| < U16 - HEADER && i <= |FragmentsOf(p, mtu)|
    ensures MaxData(mtu) % 8 == 0 && MaxData(mtu) > 0
    ensures Fragments(p, MaxData(mtu), i) == FragmentsOf(p, mtu)[..i]
  {
    MaxDataOk(mtu);
  }
}
