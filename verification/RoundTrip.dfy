/** ipv4_fragment_packet followed by ipv4_reassemble_packet on the fragments in any order. */
module RoundTrip {
  import opened Bits
  import opened Common
  import opened Seqs
  import opened Ipv4
  import opened Fragmentation
  import opened Reassembly
  import opened ReassemblyRuns
  import opened Completion

  function DatagramOf(p: Packet): Datagram {
    Datagram(p.h.id, p.h.src, p.h.dest, p.h.protocol, p.payload)
  }

  function Arrived(arrivals: seq<Arrival>): (fs: seq<Packet>)
    ensures |fs| == |arrivals|
    ensures forall i | 0 <= i < |fs| :: fs[i] == arrivals[i].f
  {
    if arrivals == [] then [] else Arrived(arrivals[..|arrivals| - 1]) + [arrivals[|arrivals| - 1].f]
  }

  /** The arrivals are the fragments of p, each exactly once, in some order. */
  ghost predicate Shuffled(arrivals: seq<Arrival>, p: Packet, mtu: u16)
    requires mtu >= 28 && |p.payload| <= 8 * UNITS
  {
    multiset(Arrived(arrivals)) == multiset(FragmentsOf(p, mtu))
  }

  /** Each fragment ends within one eight-byte unit of where it starts. */
  predicate SingleUnits(p: Packet, mtu: u16) {
    mtu < 36 || |p.payload| <= 8
  }

  lemma {:induction false} ShuffledSize(arrivals: seq<Arrival>, p: Packet, mtu: u16)
    requires mtu >= 28 && |p.payload| <= 8 * UNITS && Shuffled(arrivals, p, mtu)
    ensures |arrivals| == |FragmentsOf(p, mtu)|
    ensures forall i | 0 <= i < |arrivals| :: arrivals[i].f in FragmentsOf(p, mtu)
    ensures forall f | f in FragmentsOf(p, mtu) :: f in Arrived(arrivals)
  {
    assert |multiset(Arrived(arrivals))| == |Arrived(arrivals)|;
    forall i | 0 <= i < |arrivals|
      ensures arrivals[i].f in FragmentsOf(p, mtu)
    {
      assert Arrived(arrivals)[i] in multiset(Arrived(arrivals));
    }
    forall f | f in FragmentsOf(p, mtu)
      ensures f in Arrived(arrivals)
    {
      assert f in multiset(FragmentsOf(p, mtu));
    }
  }

  lemma {:induction false} FragmentIsCut(p: Packet, mtu: u16, i: nat)
    requires mtu >= 28 && |p.payload| <= 8 * UNITS && i < |FragmentsOf(p, mtu)|
    ensures IsFragment(FragmentsOf(p, mtu)[i], DatagramOf(p))
    ensures OffsetUnits(FragmentsOf(p, mtu)[i].h) * 8 == i * MaxData(mtu)
  {
    hide Sealed, Accepted, NumFragments, DontFragment, MoreFragments, OffsetUnits, Fragmentation.Cut;
    MaxDataOk(mtu);
    var m := MaxData(mtu);
    FragmentFields(p, m, i);
    SliceBounds(|p.payload|, m, i);
    FragmentSlicePayload(p, m, i);
    assert (i + 1) * m == i * m + m;
  }

  lemma {:induction false} FragmentSlicePayload(p: Packet, m: nat, i: nat)
    requires m % 8 == 0 && m > 0 && |p.payload| <= 8 * UNITS && i < NumFragments(|p.payload|, m)
    ensures i * m < Min((i + 1) * m, |p.payload|)
    ensures FragmentAt(p, m, i).payload == p.payload[i * m..Min((i + 1) * m, |p.payload|)]
  {
    hide Sealed, NumFragments;
    SliceBounds(|p.payload|, m, i);
  }

  /** The arrival is a fragment of d that starts at unit u. */
  predicate StartsAt(a: Arrival, d: Datagram, u: nat) {
    HasKey(a.f.h, d) && OffsetUnits(a.f.h) == u
  }

  lemma {:induction false} StartsAre(arrivals: seq<Arrival>, d: Datagram, u: nat)
    ensures u in Starts(arrivals, d) <==> exists i | 0 <= i < |arrivals| :: StartsAt(arrivals[i], d, u)
    ensures |Starts(arrivals, d)| <= |arrivals|
    decreases |arrivals|
  {
    if arrivals != [] {
      hide StartsAt, Starts;
      var n := |arrivals| - 1;
      var before := arrivals[..n];
      StartsAre(before, d, u);
      StartsStep(arrivals, d, u);
      if exists i | 0 <= i < n :: StartsAt(before[i], d, u) {
        var i :| 0 <= i < n && StartsAt(before[i], d, u);
        assert StartsAt(arrivals[i], d, u);
      }
      if exists i | 0 <= i < |arrivals| :: StartsAt(arrivals[i], d, u) {
        var i :| 0 <= i < |arrivals| && StartsAt(arrivals[i], d, u);
        assert i < n ==> before[i] == arrivals[i];
      }
    }
  }

  lemma {:induction false} StartsStep(arrivals: seq<Arrival>, d: Datagram, u: nat)
    requires arrivals != []
    ensures var n := |arrivals| - 1;
      && (u in Starts(arrivals, d) <==> u in Starts(arrivals[..n], d) || StartsAt(arrivals[n], d, u))
      && |Starts(arrivals, d)| <= |Starts(arrivals[..n], d)| + 1
  {}

  lemma {:induction false} FirstUnits(n: nat) returns (s: set<nat>)
    ensures (forall u: nat :: u in s <==> u < n) && |s| == n
  {
    if n == 0 {
      s := {};
    } else {
      var t := FirstUnits(n - 1);
      s := t + {n - 1};
    }
  }

  lemma {:induction false} ManyStarts(arrivals: seq<Arrival>, d: Datagram)
    requires Covers(Starts(arrivals, d), d)
    ensures |arrivals| >= UnitCount(d)
  {
    var s := FirstUnits(UnitCount(d));
    SubsetSize(s, Starts(arrivals, d));
    StartsAre(arrivals, d, 0);
  }

  /** With fragments of more than one unit, no fragment ever starts at unit 1. */
  lemma {:induction false} UnitOneMissing(arrivals: seq<Arrival>, p: Packet, mtu: u16)
    requires mtu >= 36 && 8 < |p.payload| <= 8 * UNITS
    requires forall i | 0 <= i < |arrivals| :: arrivals[i].f in FragmentsOf(p, mtu)
    ensures !Covers(Starts(arrivals, DatagramOf(p)), DatagramOf(p))
  {
    var d := DatagramOf(p);
    StartsAre(arrivals, d, 1);
    if 1 in Starts(arrivals, d) {
      var i :| 0 <= i < |arrivals| && StartsAt(arrivals[i], d, 1);
      var k :| 0 <= k < |FragmentsOf(p, mtu)| && FragmentsOf(p, mtu)[k] == arrivals[i].f;
      FragmentIsCut(p, mtu, k);
      BigStep(k, mtu);
    }
    assert 1 < UnitCount(d);
  }

  lemma {:induction false} BigStep(k: nat, mtu: u16)
    requires mtu >= 36
    ensures k * MaxData(mtu) != 8
  {
    assert MaxData(mtu) >= 16;
    assert k >= 1 ==> k * MaxData(mtu) >= MaxData(mtu);
  }

  /** Single-unit fragments: all of them cover the datagram, and there are as many as units. */
  lemma {:induction false} SmallMtu(mtu: u16)
    requires 28 <= mtu < 36
    ensures MaxData(mtu) == 8
  {}

  lemma {:induction false} UnitsByRounding(length: nat, m: nat, n: nat)
    requires 0 < length && m >= 8 && (m == 8 || length <= 8) && n > 0
    requires (n - 1) * m < length <= n * m
    ensures n == (length + 7) / 8
    ensures m != 8 ==> n == 1
  {
    if n >= 2 {
      assert (n - 1) * m >= m;
    }
  }

  lemma {:induction false} SingleUnitCount(p: Packet, mtu: u16)
    requires mtu >= 28 && 0 < |p.payload| <= 8 * UNITS && SingleUnits(p, mtu)
    ensures |FragmentsOf(p, mtu)| == UnitCount(DatagramOf(p))
    ensures forall i | 0 <= i < |FragmentsOf(p, mtu)| :: OffsetUnits(FragmentsOf(p, mtu)[i].h) == i
  {
    hide FragmentAt, NumFragments, MaxData, OffsetUnits;
    MaxDataOk(mtu);
    if mtu < 36 {
      SmallMtu(mtu);
    }
    UnitsByRounding(|p.payload|, MaxData(mtu), NumFragments(|p.payload|, MaxData(mtu)));
    forall i | 0 <= i < |FragmentsOf(p, mtu)|
      ensures OffsetUnits(FragmentsOf(p, mtu)[i].h) == i
    {
      FragmentIsCut(p, mtu, i);
    }
  }

  lemma {:induction false} AllSinglesCover(arrivals: seq<Arrival>, p: Packet, mtu: u16)
    requires mtu >= 28 && 0 < |p.payload| <= 8 * UNITS && SingleUnits(p, mtu) && Shuffled(arrivals, p, mtu)
    ensures Covers(Starts(arrivals, DatagramOf(p)), DatagramOf(p))
  {
    hide FragmentsOf, OffsetUnits;
    var d := DatagramOf(p);
    SingleUnitCount(p, mtu);
    ShuffledSize(arrivals, p, mtu);
    forall u: nat | u < UnitCount(d)
      ensures u in Starts(arrivals, d)
    {
      FragmentIsCut(p, mtu, u);
      assert FragmentsOf(p, mtu)[u] in Arrived(arrivals);
      var i :| 0 <= i < |arrivals| && Arrived(arrivals)[i] == FragmentsOf(p, mtu)[u];
      assert StartsAt(arrivals[i], d, u);
      StartsAre(arrivals, d, u);
    }
  }

  /** Before the last arrival the starts never cover the datagram; at the last arrival they do
      exactly when the fragments are single units. */
  lemma {:induction false} ShuffleCovers(arrivals: seq<Arrival>, p: Packet, mtu: u16)
    requires mtu >= 28 && 0 < |p.payload| <= 8 * UNITS && Shuffled(arrivals, p, mtu)
    ensures |arrivals| > 0
    ensures !Covers(Starts(arrivals[..|arrivals| - 1], DatagramOf(p)), DatagramOf(p))
    ensures Covers(Starts(arrivals, DatagramOf(p)), DatagramOf(p)) <==> SingleUnits(p, mtu)
  {
    hide FragmentsOf, Covers, Starts;
    var d := DatagramOf(p);
    ShuffledSize(arrivals, p, mtu);
    NonEmptyFragments(p, mtu);
    if SingleUnits(p, mtu) {
      AllSinglesCover(arrivals, p, mtu);
      SingleUnitCount(p, mtu);
      if Covers(Starts(arrivals[..|arrivals| - 1], d), d) {
        ManyStarts(arrivals[..|arrivals| - 1], d);
      }
    } else {
      UnitOneMissing(arrivals, p, mtu);
      UnitOneMissing(arrivals[..|arrivals| - 1], p, mtu);
    }
  }

  lemma {:induction false} NonEmptyFragments(p: Packet, mtu: u16)
    requires mtu >= 28 && 0 < |p.payload| <= 8 * UNITS
    ensures |FragmentsOf(p, mtu)| > 0
  {
    MaxDataOk(mtu);
  }

  /** The arrivals that are fragments of d. */
  function OwnArrivals(arrivals: seq<Arrival>, d: Datagram): (r: seq<Arrival>)
    ensures |r| <= |arrivals| && forall i | 0 <= i < |r| :: r[i] in arrivals && HasKey(r[i].f.h, d)
  {
    if arrivals == [] then []
    else
      var n := |arrivals| - 1;
      OwnArrivals(arrivals[..n], d) + if HasKey(arrivals[n].f.h, d) then [arrivals[n]] else []
  }

  lemma {:induction false} NoneOwn(d: Datagram)
    ensures OwnArrivals([], d) == []
  {}

  lemma {:induction false} OwnSnoc(arrivals: seq<Arrival>, d: Datagram)
    requires arrivals != []
    ensures var n := |arrivals| - 1;
      OwnArrivals(arrivals, d)
        == if HasKey(arrivals[n].f.h, d) then OwnArrivals(arrivals[..n], d) + [arrivals[n]]
           else OwnArrivals(arrivals[..n], d)
  {}

  lemma {:induction false} OwnStarts(arrivals: seq<Arrival>, d: Datagram)
    ensures Starts(OwnArrivals(arrivals, d), d) == Starts(arrivals, d)
    decreases |arrivals|
  {
    hide HasKey;
    if arrivals != [] {
      var n := |arrivals| - 1;
      OwnStarts(arrivals[..n], d);
      OwnSnoc(arrivals, d);
      hide OwnArrivals;
      var own := OwnArrivals(arrivals[..n], d);
      assert (own + [arrivals[n]])[..|own|] == own;
    }
  }

  /** The last of them. */
  lemma {:induction false} LastOwn(arrivals: seq<Arrival>, d: Datagram) returns (j: nat)
    requires OwnArrivals(arrivals, d) != []
    ensures j < |arrivals| && HasKey(arrivals[j].f.h, d)
    ensures forall i | j < i < |arrivals| :: !HasKey(arrivals[i].f.h, d)
    ensures OwnArrivals(arrivals[..j + 1], d) == OwnArrivals(arrivals, d)
    ensures OwnArrivals(arrivals[..j], d) == OwnArrivals(arrivals, d)[..|OwnArrivals(arrivals, d)| - 1]
    decreases |arrivals|
  {
    NoneOwn(d);
    hide HasKey, OwnArrivals;
    assert arrivals != [];
    var n := |arrivals| - 1;
    OwnSnoc(arrivals, d);
    if HasKey(arrivals[n].f.h, d) {
      j := n;
      assert arrivals[..n + 1] == arrivals;
    } else {
      j := LastOwn(arrivals[..n], d);
      assert arrivals[..n][..j] == arrivals[..j] && arrivals[..n][..j + 1] == arrivals[..j + 1];
    }
  }

  /** Fragmenting and reassembling in any order, among fragments of any other datagrams: nothing is
      handed up before the last fragment (call j), and the last one hands the datagram up exactly when
      every fragment is a single unit. With larger fragments the source never completes, because it
      marks only a fragment's first unit. */
  lemma {:induction false} ShuffledReassembly(t: seq<Slot>, ds: set<Datagram>, arrivals: seq<Arrival>, p: Packet,
                                              mtu: u16) returns (j: nat)
    requires mtu >= 28 && 0 < |p.payload| <= 8 * UNITS && DatagramOf(p) in ds && DistinctKeys(ds)
    requires Shuffled(OwnArrivals(arrivals, DatagramOf(p)), p, mtu)
    requires RunOk(t, ds, arrivals) && AllServed(t, ds, arrivals, DatagramOf(p))
    requires NoBuffer(t, DatagramOf(p)) && Sound(t, ds)
    ensures j < |arrivals| && HasKey(arrivals[j].f.h, DatagramOf(p))
    ensures var packets := Run(t, ds, arrivals).packets;
      && (forall i | 0 <= i < |arrivals| && i != j && HasKey(arrivals[i].f.h, DatagramOf(p)) ::
           i < j && packets[i].None?)
      && (packets[j].Some? <==> SingleUnits(p, mtu))
      && (packets[j].Some? ==> Delivers(packets[j].value, DatagramOf(p)))
  {
    hide Shuffled, Covers, Starts, AllServed, DistinctKeys, Sound, Delivers, Run, ArrivalOk, NoBuffer, OwnArrivals;
    var d := DatagramOf(p);
    ShuffleCovers(OwnArrivals(arrivals, d), p, mtu);
    j := LastOwn(arrivals, d);
    var upTo := arrivals[..j + 1];
    OwnStarts(upTo, d);
    OwnStarts(arrivals[..j], d);
    assert upTo[..j] == arrivals[..j] && upTo[j] == arrivals[j];
    ServedPrefix(t, ds, arrivals, d, j + 1);
    CompletesExactly(t, ds, upTo, d);
    PacketsPrefix(t, ds, arrivals, j + 1);
    ReassemblySound(t, ds, arrivals);
    assert DeliversOne(Run(t, ds, arrivals).packets[j], arrivals[j], ds);
    if Run(t, ds, arrivals).packets[j].Some? {
      var d' :| d' in ds && IsFragment(arrivals[j].f, d') && Delivers(Run(t, ds, arrivals).packets[j].value, d');
      SameDatagram(arrivals[j].f, ds, d, d');
    }
  }

  lemma {:induction false} SameDatagram(f: Packet, ds: set<Datagram>, d: Datagram, d': Datagram)
    requires DistinctKeys(ds) && d in ds && d' in ds && HasKey(f.h, d) && IsFragment(f, d')
    ensures d == d'
  {}

  // ---------------------------------------------------------------- larger fragments never complete

  /** No buffer of d has unit 1 flagged or a wrong length. */
  ghost predicate NoUnitOne(t: seq<Slot>, d: Datagram)
    requires TableOk(t)
  {
    forall i | 0 <= i < |t| && KeyOf(t[i], d) :: !t[i].flags[1] && (t[i].total == 0 || t[i].total == |d.payload|)
  }

  /** A fragment of d that starts elsewhere leaves unit 1 unflagged and completes nothing. */
  lemma {:induction false} ElsewhereNone(t: seq<Slot>, a: Arrival, d: Datagram)
    requires TableOk(t) && TotalsOk(t) && NoUnitOne(t, d) && |d.payload| > 8
    requires Sized(a.f) && (a.frames.Some? ==> |a.frames.value| == BUFFER)
    requires HasKey(a.f.h, d) ==> IsFragment(a.f, d) && OffsetUnits(a.f.h) != 1
    ensures var r := Feed(t, a.f, a.frames, a.packetFree);
      NoUnitOne(r.table, d) && (HasKey(a.f.h, d) ==> r.packet.None?)
  {
    hide Overwrite, Assembled;
    var target := Target(t, a.f.h, a.frames);
    if target.Some? && HasKey(a.f.h, d) {
      var (k, s0) := target.value;
      var s := Stored(s0, a.f);
      assert !s0.flags[1] && (s0.total == 0 || s0.total == |d.payload|);
      assert !s.flags[1];
      assert !Complete(s);
    }
  }

  lemma {:induction false} NotAtUnitOne(f: Packet, p: Packet, mtu: u16)
    requires mtu >= 36 && 8 < |p.payload| <= 8 * UNITS && f in FragmentsOf(p, mtu)
    ensures IsFragment(f, DatagramOf(p)) && OffsetUnits(f.h) != 1
  {
    hide FragmentsOf, OffsetUnits, MaxData, IsFragment;
    var k :| 0 <= k < |FragmentsOf(p, mtu)| && FragmentsOf(p, mtu)[k] == f;
    FragmentIsCut(p, mtu, k);
    BigStep(k, mtu);
  }

  /** Whatever is sent again, in whatever order, among whatever other datagrams, and whatever the
      allocator answers: a packet cut into fragments of more than one unit is never handed up. */
  lemma {:induction false} NeverReassembled(t: seq<Slot>, ds: set<Datagram>, arrivals: seq<Arrival>, p: Packet,
                                            mtu: u16)
    requires mtu >= 36 && 8 < |p.payload| <= 8 * UNITS && RunOk(t, ds, arrivals) && NoUnitOne(t, DatagramOf(p))
    requires forall i | 0 <= i < |arrivals| && HasKey(arrivals[i].f.h, DatagramOf(p)) ::
      arrivals[i].f in FragmentsOf(p, mtu)
    ensures NoUnitOne(Run(t, ds, arrivals).table, DatagramOf(p))
    ensures forall i | 0 <= i < |arrivals| && HasKey(arrivals[i].f.h, DatagramOf(p)) ::
      Run(t, ds, arrivals).packets[i].None?
    decreases |arrivals|
  {
    hide Feed, FragmentsOf, IsFragment, NoUnitOne, OffsetUnits;
    if arrivals != [] {
      var n := |arrivals| - 1;
      var a := arrivals[n];
      NeverReassembled(t, ds, arrivals[..n], p, mtu);
      assert ArrivalOk(a, ds);
      ArrivalSized(a, ds);
      if HasKey(a.f.h, DatagramOf(p)) {
        NotAtUnitOne(a.f, p, mtu);
      }
      ElsewhereNone(Run(t, ds, arrivals[..n]).table, a, DatagramOf(p));
      forall i | 0 <= i < n && HasKey(arrivals[i].f.h, DatagramOf(p))
        ensures Run(t, ds, arrivals).packets[i].None?
      {
        assert Run(t, ds, arrivals[..n]).packets[i].None?;
      }
    }
  }
}
