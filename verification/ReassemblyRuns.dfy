/** Runs of ipv4_reassemble_packet: arrivals in any order, with loss, repetition and fragments of
    several datagrams interleaved. */
module ReassemblyRuns {
  import opened Bits
  import opened Common
  import opened Ipv4
  import opened Reassembly

  /** An original datagram; id, source and destination are its key. */
  datatype Datagram = Datagram(id: u16, src: Addr, dest: Addr, protocol: byte, payload: seq<byte>)

  predicate HasKey(h: Header, d: Datagram) {
    h.id == d.id && h.src == d.src && h.dest == d.dest
  }

  /** f carries a slice of d, cut as RFC 791 section 3.2 requires. */
  predicate IsFragment(f: Packet, d: Datagram) {
    var at := OffsetUnits(f.h) * 8;
    && HasKey(f.h, d) && f.h.protocol == d.protocol && f.h.totalLength == HEADER + |f.payload|
    && 0 < |f.payload| && at + |f.payload| <= |d.payload| <= 8 * UNITS
    && f.payload == d.payload[at..at + |f.payload|]
    && (if MoreFragments(f.h) then |f.payload| % 8 == 0 && at + |f.payload| < |d.payload|
        else at + |f.payload| == |d.payload|)
  }

  ghost predicate DistinctKeys(ds: set<Datagram>) {
    forall a, b | a in ds && b in ds && a.id == b.id && a.src == b.src && a.dest == b.dest :: a == b
  }

  /** The buffer holds the bytes of d wherever a unit is flagged. */
  predicate Holds(s: Slot, d: Datagram)
    requires s.Busy? && Reassembly.SlotOk(s)
  {
    && s.id == d.id && s.src == d.src && s.dest == d.dest && |d.payload| <= 8 * UNITS
    && (s.total == 0 || s.total == |d.payload|)
    && forall x | 0 <= x < |d.payload| && s.flags[x / 8] :: s.data[x] == d.payload[x]
  }

  ghost predicate Sound(t: seq<Slot>, ds: set<Datagram>)
    requires TableOk(t)
  {
    forall i | 0 <= i < |t| && t[i].Busy? :: SlotSound(t[i], ds)
  }

  ghost predicate SlotSound(s: Slot, ds: set<Datagram>)
    requires s.Busy? && Reassembly.SlotOk(s)
  {
    exists d :: d in ds && Holds(s, d)
  }

  /** An arrival, with what the allocator answers during the call. */
  datatype Arrival = Arrival(f: Packet, frames: Option<seq<byte>>, packetFree: bool)

  ghost predicate ArrivalOk(a: Arrival, ds: set<Datagram>) {
    (exists d :: d in ds && IsFragment(a.f, d)) && (a.frames.Some? ==> |a.frames.value| == BUFFER)
  }

  /** The packet is d: its whole payload, addresses and identification, in an unfragmented header
      that passes the checksum test. */
  predicate Delivers(p: Packet, d: Datagram) {
    p.payload == d.payload && HasKey(p.h, d) && p.h.protocol == d.protocol
    && p.h.totalLength == HEADER + |d.payload| && p.h.flagsOffset == 0 && Accepted(p.h)
  }

  lemma {:induction false} FragmentIsSized(f: Packet, d: Datagram)
    requires IsFragment(f, d)
    ensures Sized(f)
    ensures |f.payload| >= 8 || OffsetUnits(f.h) * 8 + |f.payload| == |d.payload|
  {}

  /** Storing a fragment of d keeps the buffer faithful to d. */
  lemma {:induction false} StoredHolds(s: Slot, f: Packet, d: Datagram)
    requires s.Busy? && Reassembly.SlotOk(s) && IsFragment(f, d) && Sized(f) && Holds(s, d)
    ensures Holds(Stored(s, f), d)
  {
    hide Overwrite;
    FragmentIsSized(f, d);
    var s' := Stored(s, f);
    var u, at := OffsetUnits(f.h), OffsetUnits(f.h) * 8;
    forall x | 0 <= x < |d.payload| && s'.flags[x / 8]
      ensures s'.data[x] == d.payload[x]
    {
      if at <= x < at + |f.payload| {
        assert f.payload[x - at] == d.payload[x];
      } else {
        assert x / 8 != u;
      }
    }
  }

  /** A complete buffer that is faithful to d holds all of d. */
  lemma {:induction false} CompleteHoldsAll(s: Slot, d: Datagram)
    requires s.Busy? && Reassembly.SlotOk(s) && Holds(s, d) && Complete(s)
    ensures s.data[..s.total] == d.payload
  {
    forall x | 0 <= x < |d.payload|
      ensures s.data[x] == d.payload[x]
    {
      assert s.flags[x / 8];
    }
  }

  lemma {:induction false} AssembledDelivers(s: Slot, f: Packet, d: Datagram)
    requires s.Busy? && Reassembly.SlotOk(s) && Holds(s, d) && Complete(s) && IsFragment(f, d)
    ensures Delivers(Assembled(s, f.h), d)
  {
    CompleteHoldsAll(s, d);
    SealedIsAccepted(f.h.(flagsOffset := 0, totalLength := HEADER + s.total));
  }

  /** The buffer chosen for a fragment of d is faithful to d: either it is d's own buffer, or it
      is new and nothing in it is flagged. */
  lemma {:induction false} TargetHolds(t: seq<Slot>, ds: set<Datagram>, a: Arrival, d: Datagram)
    requires TableOk(t) && Sound(t, ds) && DistinctKeys(ds) && d in ds && IsFragment(a.f, d)
    requires a.frames.Some? ==> |a.frames.value| == BUFFER
    requires Target(t, a.f.h, a.frames).Some?
    ensures var (k, s) := Target(t, a.f.h, a.frames).value; k < |t| && s.Busy? && Reassembly.SlotOk(s) && Holds(s, d)
  {
    var k := FindKey(t, a.f.h, 0);
    if k < |t| {
      assert SlotSound(t[k], ds);
      var d' :| d' in ds && Holds(t[k], d');
      assert d' == d;
    }
  }

  /** Every call keeps the table faithful, and a packet it returns is exactly one original. */
  lemma {:induction false} FeedSound(t: seq<Slot>, ds: set<Datagram>, a: Arrival, d: Datagram)
    requires TableOk(t) && TotalsOk(t) && Sound(t, ds) && DistinctKeys(ds)
    requires d in ds && IsFragment(a.f, d) && Sized(a.f)
    requires a.frames.Some? ==> |a.frames.value| == BUFFER
    ensures var r := Feed(t, a.f, a.frames, a.packetFree);
      Sound(r.table, ds) && (r.packet.Some? ==> Delivers(r.packet.value, d))
  {
    hide Stored, Holds, Complete, Assembled, IsFragment, Delivers;
    var target := Target(t, a.f.h, a.frames);
    if target.Some? {
      TargetHolds(t, ds, a, d);
      var (k, s0) := target.value;
      StoredHolds(s0, a.f, d);
      var s := Stored(s0, a.f);
      assert SlotSound(s, ds);
      if Complete(s) {
        AssembledDelivers(s, a.f, d);
      }
    }
  }

  /** The table and the returned packets of a run. */
  datatype History = History(table: seq<Slot>, packets: seq<Option<Packet>>)

  ghost function Run(t: seq<Slot>, ds: set<Datagram>, arrivals: seq<Arrival>): (h: History)
    requires TableOk(t) && TotalsOk(t) && forall i | 0 <= i < |arrivals| :: ArrivalOk(arrivals[i], ds)
    ensures TableOk(h.table) && TotalsOk(h.table) && |h.packets| == |arrivals|
  {
    if arrivals == [] then History(t, [])
    else
      var n := |arrivals| - 1;
      var before := Run(t, ds, arrivals[..n]);
      var a := arrivals[n];
      ArrivalSized(a, ds);
      var r := Feed(before.table, a.f, a.frames, a.packetFree);
      History(r.table, before.packets + [r.packet])
  }

  lemma {:induction false} ArrivalSized(a: Arrival, ds: set<Datagram>)
    requires ArrivalOk(a, ds)
    ensures Sized(a.f)
  {
    var d :| d in ds && IsFragment(a.f, d);
    FragmentIsSized(a.f, d);
  }

  ghost predicate DeliversOne(p: Option<Packet>, a: Arrival, ds: set<Datagram>) {
    p.Some? ==> exists d :: d in ds && IsFragment(a.f, d) && Delivers(p.value, d)
  }

  /** Soundness of reassembly: whatever arrives in whatever order, from whatever the allocated
      frames held before, every packet handed up is exactly one of the original datagrams. */
  lemma {:induction false} ReassemblySound(t: seq<Slot>, ds: set<Datagram>, arrivals: seq<Arrival>)
    requires TableOk(t) && TotalsOk(t) && Sound(t, ds) && DistinctKeys(ds)
    requires forall i | 0 <= i < |arrivals| :: ArrivalOk(arrivals[i], ds)
    ensures Sound(Run(t, ds, arrivals).table, ds)
    ensures forall i | 0 <= i < |arrivals| :: DeliversOne(Run(t, ds, arrivals).packets[i], arrivals[i], ds)
    decreases |arrivals|
  {
    hide Feed, Sound, Delivers, IsFragment, DistinctKeys;
    if arrivals != [] {
      var n := |arrivals| - 1;
      ReassemblySound(t, ds, arrivals[..n]);
      var a := arrivals[n];
      assert ArrivalOk(a, ds);
      ArrivalSized(a, ds);
      var d :| d in ds && IsFragment(a.f, d);
      FeedSound(Run(t, ds, arrivals[..n]).table, ds, a, d);
      forall i | 0 <= i < n
        ensures DeliversOne(Run(t, ds, arrivals).packets[i], arrivals[i], ds)
      {
        assert DeliversOne(Run(t, ds, arrivals[..n]).packets[i], arrivals[..n][i], ds);
      }
    }
  }

  /** The table of boot, all buffers free, is sound for any datagrams. */
  lemma {:induction false} EmptyTableSound(t: seq<Slot>, ds: set<Datagram>)
    requires |t| == SLOTS && forall i | 0 <= i < |t| :: t[i].Free?
    ensures TableOk(t) && TotalsOk(t) && Sound(t, ds)
  {}
}
