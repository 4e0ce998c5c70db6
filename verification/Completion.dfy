/** When ipv4_reassemble_packet hands a datagram up. */
module Completion {
  import opened Ipv4
  import opened Reassembly
  import opened ReassemblyRuns

  predicate KeyOf(s: Slot, d: Datagram) {
    s.Busy? && s.id == d.id && s.src == d.src && s.dest == d.dest
  }

  predicate NoBuffer(t: seq<Slot>, d: Datagram) {
    forall i | 0 <= i < |t| :: !KeyOf(t[i], d)
  }

  /** Exactly buffer k belongs to d; its flags are the given units, its length is known iff `last`. */
  predicate BufferIs(t: seq<Slot>, d: Datagram, k: nat, units: set<nat>, last: bool)
    requires TableOk(t)
  {
    && k < |t| && KeyOf(t[k], d)
    && (forall i | 0 <= i < |t| && i != k :: !KeyOf(t[i], d))
    && (forall u | 0 <= u < UNITS :: t[k].flags[u] <==> u in units)
    && t[k].total == if last then |d.payload| else 0
  }

  /** The table after fragments of d that started at the given units. */
  ghost predicate Tracks(t: seq<Slot>, d: Datagram, units: set<nat>, last: bool)
    requires TableOk(t)
  {
    if units == {} then NoBuffer(t, d) && !last else exists k: nat :: BufferIs(t, d, k, units, last)
  }

  function UnitCount(d: Datagram): nat {
    (|d.payload| + 7) / 8
  }

  /** A fragment has started at every unit of d. */
  predicate Covers(units: set<nat>, d: Datagram) {
    forall u: nat | u < UnitCount(d) :: u in units
  }

  /** A fragment of another datagram leaves d's buffer alone. */
  lemma {:induction false} OtherKeepsTracks(t: seq<Slot>, a: Arrival, d: Datagram, units: set<nat>, last: bool)
    requires TableOk(t) && TotalsOk(t) && Sized(a.f) && (a.frames.Some? ==> |a.frames.value| == BUFFER)
    requires Tracks(t, d, units, last) && !HasKey(a.f.h, d)
    ensures Tracks(Feed(t, a.f, a.frames, a.packetFree).table, d, units, last)
  {
    hide Complete, Overwrite, Assembled;
    var r := Feed(t, a.f, a.frames, a.packetFree);
    if units == {} {
      assert NoBuffer(r.table, d);
    } else {
      var k: nat :| BufferIs(t, d, k, units, last);
      assert r.table[k] == t[k];
      assert BufferIs(r.table, d, k, units, last);
    }
  }

  /** A buffer can be found and the packet allocated. */
  predicate Served(t: seq<Slot>, a: Arrival)
    requires TableOk(t) && (a.frames.Some? ==> |a.frames.value| == BUFFER)
  {
    a.frames.Some? && a.packetFree && Target(t, a.f.h, a.frames).Some?
  }

  /** The units of d started since the last time it was handed up, and whether its end was seen. */
  datatype Book = Book(units: set<nat>, last: bool)

  /** The fragment finds its datagram's buffer, or gets a new one. */
  predicate Kept(t: seq<Slot>, a: Arrival)
    requires TableOk(t) && (a.frames.Some? ==> |a.frames.value| == BUFFER)
  {
    Target(t, a.f.h, a.frames).Some?
  }

  function Started(b: Book, a: Arrival): Book {
    Book(b.units + {OffsetUnits(a.f.h)}, b.last || !MoreFragments(a.f.h))
  }

  ghost predicate BookOk(t: seq<Slot>, d: Datagram, b: Book)
    requires TableOk(t)
  {
    Tracks(t, d, b.units, b.last) && ((|d.payload| - 1) / 8 in b.units ==> b.last)
  }

  lemma {:induction false} KeptTarget(t: seq<Slot>, a: Arrival, d: Datagram, b: Book)
    requires TableOk(t) && Tracks(t, d, b.units, b.last) && HasKey(a.f.h, d)
    requires (a.frames.Some? ==> |a.frames.value| == BUFFER) && Kept(t, a)
    ensures var (k, s) := Target(t, a.f.h, a.frames).value;
      && k < |t| && s.Busy? && Reassembly.SlotOk(s) && KeyOf(s, d)
      && (forall i | 0 <= i < |t| && i != k :: !KeyOf(t[i], d))
      && (forall u | 0 <= u < UNITS :: s.flags[u] <==> u in b.units)
      && s.total == if b.last then |d.payload| else 0
  {
    if b.units != {} {
      var k: nat :| BufferIs(t, d, k, b.units, b.last);
      assert FindKey(t, a.f.h, 0) == k;
    }
  }

  /** A fragment of d, whatever the allocator answers: without a buffer it is as if lost; else d is
      handed up exactly when every unit has now been started and a packet can be allocated. */
  lemma {:induction false} FeedBook(t: seq<Slot>, a: Arrival, d: Datagram, b: Book)
    requires TableOk(t) && TotalsOk(t) && BookOk(t, d, b) && IsFragment(a.f, d) && Sized(a.f)
    requires a.frames.Some? ==> |a.frames.value| == BUFFER
    ensures var r := Feed(t, a.f, a.frames, a.packetFree);
      if !Kept(t, a) then r.packet.None? && BookOk(r.table, d, b)
      else if Covers(Started(b, a).units, d) && a.packetFree then r.packet.Some? && BookOk(r.table, d, Book({}, false))
      else r.packet.None? && BookOk(r.table, d, Started(b, a))
  {
    hide Target, Assembled, Overwrite;
    if Kept(t, a) {
      KeptTarget(t, a, d, b);
      FragmentIsSized(a.f, d);
      var (k, s0) := Target(t, a.f.h, a.frames).value;
      var s := Stored(s0, a.f);
      var b' := Started(b, a);
      LastUnitIsLast(a.f, d);
      CompleteIffCovers(s, d, b'.units, b'.last);
      if Complete(s) && a.packetFree {
        assert NoBuffer(t[k := Free], d);
      } else {
        assert BufferIs(t[k := s], d, k, b'.units, b'.last);
      }
    }
  }

  /** A fragment that starts at the last unit is the last one. */
  lemma {:induction false} LastUnitIsLast(f: Packet, d: Datagram)
    requires IsFragment(f, d)
    ensures OffsetUnits(f.h) == (|d.payload| - 1) / 8 ==> !MoreFragments(f.h)
  {}

  /** Feeding a fragment of d hands d up exactly when every unit has been started, counting this
      one; otherwise the table records the new start. */
  lemma {:induction false} OwnFeed(t: seq<Slot>, a: Arrival, d: Datagram, units: set<nat>, last: bool)
    requires TableOk(t) && TotalsOk(t) && Tracks(t, d, units, last) && IsFragment(a.f, d) && Sized(a.f)
    requires (a.frames.Some? ==> |a.frames.value| == BUFFER) && Served(t, a)
    requires (|d.payload| - 1) / 8 in units ==> last
    ensures var r := Feed(t, a.f, a.frames, a.packetFree);
      var units' := units + {OffsetUnits(a.f.h)};
      var last' := last || !MoreFragments(a.f.h);
      && (r.packet.Some? <==> Covers(units', d))
      && ((|d.payload| - 1) / 8 in units' ==> last')
      && (!Covers(units', d) ==> Tracks(r.table, d, units', last'))
  {
    hide Tracks, Covers, Feed;
    FeedBook(t, a, d, Book(units, last));
    LastUnitIsLast(a.f, d);
  }

  lemma {:induction false} CompleteIffCovers(s: Slot, d: Datagram, units: set<nat>, last: bool)
    requires s.Busy? && Reassembly.SlotOk(s) && 0 < |d.payload| <= 8 * UNITS
    requires forall u | 0 <= u < UNITS :: s.flags[u] <==> u in units
    requires s.total == if last then |d.payload| else 0
    requires (|d.payload| - 1) / 8 in units ==> last
    ensures Complete(s) <==> Covers(units, d)
  {
    assert (|d.payload| - 1) / 8 == UnitCount(d) - 1;
  }

  /** Units started by the fragments of d among the arrivals. */
  function Starts(arrivals: seq<Arrival>, d: Datagram): set<nat> {
    if arrivals == [] then {}
    else
      var a := arrivals[|arrivals| - 1];
      Starts(arrivals[..|arrivals| - 1], d) + (if HasKey(a.f.h, d) then {OffsetUnits(a.f.h)} else {})
  }

  function LastSeen(arrivals: seq<Arrival>, d: Datagram): bool {
    arrivals != [] && (LastSeen(arrivals[..|arrivals| - 1], d)
      || (HasKey(arrivals[|arrivals| - 1].f.h, d) && !MoreFragments(arrivals[|arrivals| - 1].f.h)))
  }

  ghost predicate RunOk(t: seq<Slot>, ds: set<Datagram>, arrivals: seq<Arrival>) {
    TableOk(t) && TotalsOk(t) && forall i | 0 <= i < |arrivals| :: ArrivalOk(arrivals[i], ds)
  }

  /** Every fragment of d finds a buffer and, when needed, a packet. */
  ghost predicate AllServed(t: seq<Slot>, ds: set<Datagram>, arrivals: seq<Arrival>, d: Datagram)
    requires RunOk(t, ds, arrivals)
  {
    forall i | 0 <= i < |arrivals| :: ServedAt(t, ds, arrivals, d, i)
  }

  ghost predicate ServedAt(t: seq<Slot>, ds: set<Datagram>, arrivals: seq<Arrival>, d: Datagram, i: nat)
    requires RunOk(t, ds, arrivals) && i < |arrivals|
  {
    assert ArrivalOk(arrivals[i], ds);
    HasKey(arrivals[i].f.h, d) ==> Served(Run(t, ds, arrivals[..i]).table, arrivals[i])
  }

  lemma {:induction false} ServedPrefix(t: seq<Slot>, ds: set<Datagram>, arrivals: seq<Arrival>, d: Datagram, n: nat)
    requires RunOk(t, ds, arrivals) && AllServed(t, ds, arrivals, d) && n <= |arrivals|
    ensures RunOk(t, ds, arrivals[..n]) && AllServed(t, ds, arrivals[..n], d)
  {
    forall i | 0 <= i < n
      ensures ArrivalOk(arrivals[..n][i], ds)
      ensures RunOk(t, ds, arrivals[..n]) ==> ServedAt(t, ds, arrivals[..n], d, i)
    {
      assert ServedAt(t, ds, arrivals, d, i);
      assert arrivals[..n][..i] == arrivals[..i];
    }
  }

  lemma {:induction false} OwnArrival(a: Arrival, ds: set<Datagram>, d: Datagram)
    requires ArrivalOk(a, ds) && DistinctKeys(ds) && d in ds && HasKey(a.f.h, d)
    ensures IsFragment(a.f, d)
  {
    var d' :| d' in ds && IsFragment(a.f, d');
  }

  /** While the starts do not cover d, the table records them and nothing has been handed up for d. */
  lemma {:induction false} RunTracks(t: seq<Slot>, ds: set<Datagram>, arrivals: seq<Arrival>, d: Datagram)
    requires RunOk(t, ds, arrivals) && DistinctKeys(ds) && d in ds && NoBuffer(t, d)
    requires AllServed(t, ds, arrivals, d) && !Covers(Starts(arrivals, d), d)
    ensures Tracks(Run(t, ds, arrivals).table, d, Starts(arrivals, d), LastSeen(arrivals, d))
    ensures (|d.payload| - 1) / 8 in Starts(arrivals, d) ==> LastSeen(arrivals, d)
    ensures forall i | 0 <= i < |arrivals| && HasKey(arrivals[i].f.h, d) :: Run(t, ds, arrivals).packets[i].None?
    decreases |arrivals|
  {
    hide Feed, Tracks, IsFragment, Covers, DistinctKeys, AllServed, Served;
    if arrivals == [] {
      TracksNone(t, d);
    } else {
      var n := |arrivals| - 1;
      var before := arrivals[..n];
      var a := arrivals[n];
      ServedPrefix(t, ds, arrivals, d, n);
      CoversGrows(Starts(before, d), Starts(arrivals, d), d);
      RunTracks(t, ds, before, d);
      assert ArrivalOk(a, ds);
      ArrivalSized(a, ds);
      if HasKey(a.f.h, d) {
        LastServed(t, ds, arrivals, d);
        OwnArrival(a, ds, d);
        OwnFeed(Run(t, ds, before).table, a, d, Starts(before, d), LastSeen(before, d));
      } else {
        assert Starts(arrivals, d) == Starts(before, d);
        OtherKeepsTracks(Run(t, ds, before).table, a, d, Starts(before, d), LastSeen(before, d));
      }
    }
  }

  lemma {:induction false} TracksNone(t: seq<Slot>, d: Datagram)
    requires TableOk(t) && NoBuffer(t, d)
    ensures Tracks(t, d, {}, false)
  {}

  lemma {:induction false} CoversGrows(a: set<nat>, b: set<nat>, d: Datagram)
    requires a <= b && !Covers(b, d)
    ensures !Covers(a, d)
  {}

  lemma {:induction false} LastServed(t: seq<Slot>, ds: set<Datagram>, arrivals: seq<Arrival>, d: Datagram)
    requires RunOk(t, ds, arrivals) && AllServed(t, ds, arrivals, d) && arrivals != []
    requires HasKey(arrivals[|arrivals| - 1].f.h, d)
    ensures ArrivalOk(arrivals[|arrivals| - 1], ds)
    ensures Served(Run(t, ds, arrivals[..|arrivals| - 1]).table, arrivals[|arrivals| - 1])
  {
    assert ServedAt(t, ds, arrivals, d, |arrivals| - 1);
  }

  /** Exactly when a datagram is handed up: at the first arrival after which a fragment has started
      at each of its units. Fragments of other datagrams may be interleaved freely. */
  lemma {:induction false} CompletesExactly(t: seq<Slot>, ds: set<Datagram>, arrivals: seq<Arrival>, d: Datagram)
    requires RunOk(t, ds, arrivals) && DistinctKeys(ds) && d in ds && NoBuffer(t, d)
    requires AllServed(t, ds, arrivals, d) && arrivals != []
    requires HasKey(arrivals[|arrivals| - 1].f.h, d) && !Covers(Starts(arrivals[..|arrivals| - 1], d), d)
    ensures Run(t, ds, arrivals).packets[|arrivals| - 1].Some? <==> Covers(Starts(arrivals, d), d)
    ensures forall i | 0 <= i < |arrivals| - 1 && HasKey(arrivals[i].f.h, d) :: Run(t, ds, arrivals).packets[i].None?
  {
    hide Feed, Tracks, IsFragment, Covers, DistinctKeys, AllServed, Served;
    var n := |arrivals| - 1;
    var before := arrivals[..n];
    var a := arrivals[n];
    ServedPrefix(t, ds, arrivals, d, n);
    RunTracks(t, ds, before, d);
    assert ArrivalOk(a, ds);
    ArrivalSized(a, ds);
    LastServed(t, ds, arrivals, d);
    OwnArrival(a, ds, d);
    OwnFeed(Run(t, ds, before).table, a, d, Starts(before, d), LastSeen(before, d));
    forall i | 0 <= i < n && HasKey(arrivals[i].f.h, d)
      ensures Run(t, ds, arrivals).packets[i].None?
    {
      assert before[i] == arrivals[i] && Run(t, ds, before).packets[i].None?;
    }
  }

  // ---------------------------------------------------------------- every run, failures included

  /** The book of d after a run. */
  ghost function BookOf(t: seq<Slot>, ds: set<Datagram>, arrivals: seq<Arrival>, d: Datagram): Book
    requires RunOk(t, ds, arrivals)
  {
    if arrivals == [] then Book({}, false)
    else
      var n := |arrivals| - 1;
      PrefixOk(t, ds, arrivals, n);
      var b := BookOf(t, ds, arrivals[..n], d);
      var a := arrivals[n];
      if !HasKey(a.f.h, d) || !Kept(Run(t, ds, arrivals[..n]).table, a) then b
      else if Covers(Started(b, a).units, d) && a.packetFree then Book({}, false)
      else Started(b, a)
  }

  lemma {:induction false} PrefixOk(t: seq<Slot>, ds: set<Datagram>, arrivals: seq<Arrival>, n: nat)
    requires RunOk(t, ds, arrivals) && n <= |arrivals|
    ensures RunOk(t, ds, arrivals[..n])
    ensures n < |arrivals| ==> ArrivalOk(arrivals[n], ds)
    ensures n < |arrivals| && arrivals[n].frames.Some? ==> |arrivals[n].frames.value| == BUFFER
  {}

  /** The arrival after n others completes d: it is kept, every unit of d is then started, and a packet
      can be allocated. */
  ghost predicate CompletesAt(t: seq<Slot>, ds: set<Datagram>, arrivals: seq<Arrival>, d: Datagram, n: nat)
    requires RunOk(t, ds, arrivals) && n < |arrivals|
  {
    PrefixOk(t, ds, arrivals, n);
    && Kept(Run(t, ds, arrivals[..n]).table, arrivals[n]) && arrivals[n].packetFree
    && Covers(Started(BookOf(t, ds, arrivals[..n], d), arrivals[n]).units, d)
  }

  lemma {:induction false} BookKept(t: seq<Slot>, ds: set<Datagram>, arrivals: seq<Arrival>, d: Datagram)
    requires RunOk(t, ds, arrivals) && DistinctKeys(ds) && d in ds && NoBuffer(t, d)
    ensures BookOk(Run(t, ds, arrivals).table, d, BookOf(t, ds, arrivals, d))
    ensures arrivals != [] && HasKey(arrivals[|arrivals| - 1].f.h, d) ==>
      (Run(t, ds, arrivals).packets[|arrivals| - 1].Some? <==> CompletesAt(t, ds, arrivals, d, |arrivals| - 1))
    decreases |arrivals|
  {
    hide Feed, Tracks, IsFragment, Covers, DistinctKeys, Kept;
    if arrivals == [] {
      TracksNone(t, d);
    } else {
      var n := |arrivals| - 1;
      var a := arrivals[n];
      PrefixOk(t, ds, arrivals, n);
      BookKept(t, ds, arrivals[..n], d);
      ArrivalSized(a, ds);
      var b := BookOf(t, ds, arrivals[..n], d);
      if HasKey(a.f.h, d) {
        OwnArrival(a, ds, d);
        FeedBook(Run(t, ds, arrivals[..n]).table, a, d, b);
      } else {
        OtherKeepsTracks(Run(t, ds, arrivals[..n]).table, a, d, b.units, b.last);
      }
    }
  }

  lemma {:induction false} PacketsPrefix(t: seq<Slot>, ds: set<Datagram>, arrivals: seq<Arrival>, n: nat)
    requires RunOk(t, ds, arrivals) && n <= |arrivals|
    ensures RunOk(t, ds, arrivals[..n])
    ensures Run(t, ds, arrivals[..n]).packets == Run(t, ds, arrivals).packets[..n]
    decreases |arrivals|
  {
    hide Feed, IsFragment;
    if n == |arrivals| {
      assert arrivals[..n] == arrivals;
    } else {
      PacketsPrefix(t, ds, arrivals[..|arrivals| - 1], n);
      assert arrivals[..|arrivals| - 1][..n] == arrivals[..n];
    }
  }

  /** Every run, with any losses, repetitions, other datagrams and failed allocations: a call with a
      fragment of d returns a packet if and only if the fragment is kept, every unit of d has then been
      started since d was last handed up, and a packet can be allocated. */
  lemma {:induction false} HandsUpExactly(t: seq<Slot>, ds: set<Datagram>, arrivals: seq<Arrival>, d: Datagram, i: nat)
    requires RunOk(t, ds, arrivals) && DistinctKeys(ds) && d in ds && NoBuffer(t, d)
    requires i < |arrivals| && HasKey(arrivals[i].f.h, d)
    ensures Run(t, ds, arrivals).packets[i].Some? <==> CompletesAt(t, ds, arrivals, d, i)
  {
    hide Feed, IsFragment, Covers, DistinctKeys, Kept;
    var upTo := arrivals[..i + 1];
    PacketsPrefix(t, ds, arrivals, i + 1);
    BookKept(t, ds, upTo, d);
    assert upTo[..i] == arrivals[..i] && upTo[i] == arrivals[i];
  }
}
