/** Concrete runs behind the findings: each reaches, from an ordinary start, the state in which the
    code does less than it promises. */
module Witnesses {
  import opened Bits
  import opened Bitmaps
  import AddressSpaces
  import Checksum
  import Clone
  import CloneLeaks
  import Common
  import Completion
  import FragmentBuffers
  import Fragmentation
  import Holdings
  import Ipv4
  import NetPackets
  import PageTables
  import PmmPool
  import Reassembly
  import ReassemblyRuns
  import RoundTrip
  import RxRingSpec
  import SchedRuns
  import SchedScan
  import SchedSpec

  // ---------------------------------------------------------------- scheduler

  /** Idle runs alone; a process is created and terminated before it ran. The next yield hangs. */
  lemma {:induction false} ScanHangs()
    ensures var s := SchedSpec.Sched([SchedSpec.Pcb(0, SchedSpec.Running, 0)], 0, 0);
      var events := [SchedSpec.Create(1), SchedSpec.Terminate(1)];
      && SchedSpec.Inv(s) && SchedRuns.CanRun(s, events)
      && var t := SchedRuns.Run(s, events);
        && SchedSpec.Inv(t) && SchedSpec.Applies(t, SchedSpec.YieldCall) && !SchedSpec.Settles(t)
        && SchedScan.ScanOk(SchedScan.Begin(t))
        && forall n: nat :: SchedScan.Iterate(SchedScan.Begin(t), t.time, n).Scanning?
  {
    var s := SchedSpec.Sched([SchedSpec.Pcb(0, SchedSpec.Running, 0)], 0, 0);
    var events := [SchedSpec.Create(1), SchedSpec.Terminate(1)];
    assert events[1..] == [SchedSpec.Terminate(1)] && events[1..][1..] == [];
    var s1 := SchedSpec.Step(s, events[0]);
    var t := SchedSpec.Step(s1, events[1]);
    assert t.queue == [SchedSpec.Pcb(0, SchedSpec.Running, 0), SchedSpec.Pcb(1, SchedSpec.Terminated, 0)];
    assert t.cur == 0 && t.time == 0;
    SchedScan.ScanEndsExactly(t);
  }

  /** A process sleeps one tick, runs again and then blocks: the next yield runs it although nobody
      unblocked it. */
  lemma {:induction false} BlockedRunsAgain()
    returns (s: SchedSpec.Sched, events: seq<SchedSpec.Event>, t: SchedSpec.Sched)
    ensures s == SchedSpec.Sched(
      [SchedSpec.Pcb(0, SchedSpec.Ready, 0), SchedSpec.Pcb(1, SchedSpec.Running, 0)], 1, 0)
    ensures events == [SchedSpec.Sleep(1), SchedSpec.Tick, SchedSpec.YieldCall, SchedSpec.Block(1)]
    ensures SchedSpec.Inv(s) && SchedRuns.CanRun(s, events) && t == SchedRuns.Run(s, events)
    ensures t.queue == [SchedSpec.Pcb(0, SchedSpec.Running, 0), SchedSpec.Pcb(1, SchedSpec.Blocked, 1)] && t.cur == 0
    ensures SchedSpec.Enabled(t, SchedSpec.YieldCall) && SchedSpec.Step(t, SchedSpec.YieldCall).cur == 1
  {
    hide SchedSpec.Yield, SchedSpec.Settles;
    var idle := SchedSpec.Pcb(0, SchedSpec.Running, 0);
    var ready := SchedSpec.Pcb(0, SchedSpec.Ready, 0);
    s := SchedSpec.Sched([ready, SchedSpec.Pcb(1, SchedSpec.Running, 0)], 1, 0);
    events := [SchedSpec.Sleep(1), SchedSpec.Tick, SchedSpec.YieldCall, SchedSpec.Block(1)];
    var s1 := SchedSpec.Sched([idle, SchedSpec.Pcb(1, SchedSpec.Blocked, 1)], 0, 0);
    ToIdle(s, SchedSpec.Sleep(1), SchedSpec.Pcb(1, SchedSpec.Blocked, 1), 0);
    var s2 := s1.(time := 1);
    assert SchedSpec.Step(s1, SchedSpec.Tick) == s2;
    var s3 := SchedSpec.Sched([ready, SchedSpec.Pcb(1, SchedSpec.Running, 1)], 1, 1);
    FromIdle(s2);
    t := s2;
    ToIdle(s3, SchedSpec.Block(1), SchedSpec.Pcb(1, SchedSpec.Blocked, 1), 1);
    assert events[1..] == [SchedSpec.Tick, SchedSpec.YieldCall, SchedSpec.Block(1)];
    assert events[1..][1..] == [SchedSpec.YieldCall, SchedSpec.Block(1)];
    assert events[1..][1..][1..] == [SchedSpec.Block(1)] && events[1..][1..][1..][1..] == [];
    FromIdle(t);
  }

  /** The only other process gives way to idle. */
  lemma {:induction false} ToIdle(s: SchedSpec.Sched, e: SchedSpec.Event, p: SchedSpec.Pcb, time: u32)
    requires |s.queue| == 2 && s.cur == 1 && s.queue[0] == SchedSpec.Pcb(0, SchedSpec.Ready, 0) && s.time == time
    requires SchedSpec.Applies(s, e) && SchedSpec.Yields(s, e) && p.state == SchedSpec.Blocked
    requires SchedSpec.Prepare(s, e) == s.(queue := [s.queue[0], p])
    ensures SchedSpec.Enabled(s, e)
    ensures SchedSpec.Step(s, e)
      == SchedSpec.Sched([SchedSpec.Pcb(0, SchedSpec.Running, 0), p], 0, time)
  {
    var q := [s.queue[0], p];
    assert q[2..2] == [] && q[..2] + [] + q[2..] == q;
    assert SchedSpec.Purge(q, 2, 2) == q;
  }

  /** Idle gives way to the due process behind it. */
  lemma {:induction false} FromIdle(s: SchedSpec.Sched)
    requires s.queue == [SchedSpec.Pcb(0, SchedSpec.Running, 0), SchedSpec.Pcb(1, SchedSpec.Blocked, 1)]
    requires s.cur == 0 && s.time == 1
    ensures SchedSpec.Enabled(s, SchedSpec.YieldCall)
    ensures SchedSpec.Step(s, SchedSpec.YieldCall)
      == SchedSpec.Sched([SchedSpec.Pcb(0, SchedSpec.Ready, 0), SchedSpec.Pcb(1, SchedSpec.Running, 1)], 1, 1)
  {
    var q := s.queue;
    assert SchedSpec.NextFrom(q, 1, 1) == 1;
    assert q[1..1] == [] && SchedSpec.Purge(q, 1, 1) == q;
  }

  /** Just before the time wraps, a sleep of two ticks is over at once and one of one tick never. */
  lemma {:induction false} SleepAtTheWrap()
    ensures var s := SchedSpec.Sched(
        [SchedSpec.Pcb(0, SchedSpec.Ready, 0), SchedSpec.Pcb(1, SchedSpec.Running, 0)], 1, U32 - 1);
      && SchedSpec.Inv(s) && SchedSpec.Applies(s, SchedSpec.Sleep(2)) && SchedSpec.Applies(s, SchedSpec.Sleep(1))
      && SchedSpec.Eligible(SchedSpec.Prepare(s, SchedSpec.Sleep(2)).queue[1], s.time)
      && forall time: u32 :: !SchedSpec.Eligible(SchedSpec.Prepare(s, SchedSpec.Sleep(1)).queue[1], time)
  {}

  // ---------------------------------------------------------------- e1000

  /** An empty frame, or one of 1519 bytes, as the first frame of a fresh ring stops reception. */
  lemma {:induction false} RingSticks(s: RxRingSpec.State, f: RxRingSpec.Frame)
    requires RxRingSpec.Initial(s) && (|f| == 0 || |f| == 1519)
    ensures RxRingSpec.Stuck(RxRingSpec.DeviceStep(s, f))
  {
    RxRingSpec.InitialInv(s);
    RxRingSpec.DeviceKeepsInv(s, f);
  }

  // ---------------------------------------------------------------- packets and physical memory

  /** A packet whose length went to 0 (block 1 its structure, block 2 its data) leaves block 2 in use. */
  lemma {:induction false} EmptyPacketLeaks()
    ensures var p := PmmPool.Pool([true, true, true], 3);
      NetPackets.Freed(p, 4096, 8192, 0) == PmmPool.Pool([true, false, true], 2)
  {
    var p := PmmPool.Pool([true, true, true], 3);
    assert Fill(p.v, 2, 0, false) == p.v;
    assert Fill(p.v, 1, 1, false) == [true, false, true];
  }

  /** A packet whose length became 8000 (block 1 its structure, block 2 its data, block 3 free) gives
      both its blocks back, but the counter then says 0 while block 0 is in use. */
  lemma {:induction false} OverlongPacketMiscounts()
    ensures var p := PmmPool.Pool([true, true, true, false], 3);
      && PmmPool.Agrees(p) && NetPackets.ClearsOwn(p.v, 1, 2, 8192, 8000)
      && !NetPackets.NamesOwn(|p.v|, 2, 8192, 8000)
      && NetPackets.Freed(p, 4096, 8192, 8000) == PmmPool.Pool([true, false, false, false], 0)
      && !PmmPool.Agrees(NetPackets.Freed(p, 4096, 8192, 8000))
  {
    var p := PmmPool.Pool([true, true, true, false], 3);
    hide Count;
    CountFour(true, true, true, false);
    CountFour(true, false, false, false);
    assert NetPackets.Named(8192, 8000, 3);
    assert Fill(p.v, 2, 2, false) == [true, true, false, false];
    assert Fill([true, true, false, false], 1, 1, false) == [true, false, false, false];
  }

  lemma {:induction false} CountFour(a: bool, b: bool, c: bool, d: bool)
    ensures Count([a, b, c, d])
      == (if a then 1 else 0) + (if b then 1 else 0) + (if c then 1 else 0) + (if d then 1 else 0)
  {
    assert [a, b, c, d] == [a, b] + [c, d];
    CloneLeaks.CountConcat([a, b], [c, d]);
    CountTwo(a, b);
    CountTwo(c, d);
  }

  /** ipv4_cleanup with a datagram of known length 512 in progress: of the 16 blocks of its buffer, from
      block 1 on, only the first comes back. */
  lemma {:induction false} CleanupLeaks(p: PmmPool.Pool)
    requires |p.v| == 17 && p.used == 17 && forall k | 0 <= k < 17 :: p.v[k]
    ensures var s := FragmentBuffers.Shelf([FragmentBuffers.Buffer(4096, 512)], p);
      && FragmentBuffers.Consistent([true] + seq(16, _ => false), s)
      && FragmentBuffers.Step(s, FragmentBuffers.Cleanup).pool == PmmPool.Pool(p.v[1 := false], 16)
  {
    var b := FragmentBuffers.Buffer(4096, 512);
    hide Count, FragmentBuffers.FramesOf;
    OneBufferHeld(p.v, b);
    CloneLeaks.CountAll(p.v, true);
    assert Fill(p.v, 1, 1, false) == p.v[1 := false];
    var p1 := PmmPool.Step(p, PmmPool.FreeMany(4096, 1));
    assert FragmentBuffers.Cleaned(p, [b]) == FragmentBuffers.Cleaned(p1, []);
  }

  lemma {:induction false} OneBufferHeld(v: Bitmap, b: FragmentBuffers.Buffer)
    requires |v| == 17 && b.data == 4096 && forall k | 0 <= k < 17 :: v[k]
    ensures Holdings.Conserved([true] + seq(16, _ => false), v, FragmentBuffers.FramesOf([b]))
  {
    hide Holdings.Conserved, Holdings.Union;
    var base, held := [true] + seq(16, _ => false), Holdings.Blocks(1, 16);
    var none: seq<set<nat>> := [];
    Holdings.NoneConserved(base);
    Holdings.GrantConserved(base, base, none, 0, held);
    assert none[..0] + [held] + none[0..] == [held] == FragmentBuffers.FramesOf([b]);
    assert Holdings.Mark(base, held, true) == v;
  }

  /** Freeing the same block twice: one block is in use, but the counter says none. */
  lemma {:induction false} DoubleFreeMiscounts()
    ensures var t := PmmPool.Run(PmmPool.Pool([true, true], 2), [PmmPool.FreeOne(4096), PmmPool.FreeOne(4096)]);
      t.strays == 1 && t.pool == PmmPool.Pool([true, false], 0) && Count(t.pool.v) == 1
  {
    var s := PmmPool.Pool([true, true], 2);
    var c := PmmPool.FreeOne(4096);
    var calls := [c, c];
    assert calls[..1] == [c] && calls[..1][..0] == [];
    var s1 := PmmPool.Step(s, c);
    assert s1 == PmmPool.Pool([true, false], 1) by {
      assert Fill(s.v, 1, 1, false) == [true, false];
    }
    assert PmmPool.Run(s, [c]) == PmmPool.Trace(s1, PmmPool.Unused(s.v, 1, 1));
    assert Fill(s1.v, 1, 1, false) == [true, false];
    CountTwo(true, false);
  }

  lemma {:induction false} CountTwo(a: bool, b: bool)
    ensures Count([a, b]) == (if a then 1 else 0) + (if b then 1 else 0)
  {
    assert [a, b][..1] == [a] && [a][..0] == [];
    assert Count([a]) == if a then 1 else 0;
  }

  // ---------------------------------------------------------------- IPv4

  /** A header from 10.0.0.1 to 10.0.0.2 whose checksum comes out 0 and is stored as 0xFFFF: valid for
      RFC 1071, refused by the receive test. */
  lemma {:induction false} ValidHeaderRefused()
    ensures var h := Ipv4.Header(0x45, 0, 28, 60234, 0, 64, 17, 0xFFFF, [10, 0, 0, 1], [10, 0, 0, 2]);
      Checksum.InternetChecksum(Ipv4.Bytes(h)) == 0 && !Ipv4.Accepted(h)
  {
    var h := Ipv4.Header(0x45, 0, 28, 60234, 0, 64, 17, 0xFFFF, [10, 0, 0, 1], [10, 0, 0, 2]);
    hide Checksum.OnesSum;
    HeaderSum(Ipv4.Bytes(h.(checksum := 0)));
    Ipv4.AcceptedExactly(h);
  }

  /** The first fragment of a UDP packet from 10.0.0.1 to 10.0.0.2, 16 bytes at offset 0 with MF: its
      checksum, in the host's byte order. */
  lemma {:induction false} FirstFragmentChecksum()
    ensures Ipv4.HeaderChecksum(Ipv4.Header(0x45, 0, 36, 1, 0x2000, 64, 17, 0, [10, 0, 0, 1], [10, 0, 0, 2])) == 52033
  {
    var h := Ipv4.Header(0x45, 0, 36, 1, 0x2000, 64, 17, 0, [10, 0, 0, 1], [10, 0, 0, 2]);
    assert Ipv4.FieldSum(h.(checksum := 0)) == 13502;
    Ipv4.ChecksumIs(h, 52033);
  }

  lemma {:induction false} HeaderSum(b: seq<byte>)
    requires |b| == 20 && b[0] == 0x45 && b[1] == 0 && b[2] == 28 && b[3] == 0 && b[4] == 74 && b[5] == 235
    requires b[6] == 0 && b[7] == 0 && b[8] == 64 && b[9] == 17 && b[10] == 0 && b[11] == 0
    requires b[12] == 10 && b[13] == 0 && b[14] == 0 && b[15] == 1
    requires b[16] == 10 && b[17] == 0 && b[18] == 0 && b[19] == 2
    ensures Checksum.OnesSum(b) == 0xFFFF
  {
    NoWords(b);
    hide Checksum.OnesSum;
    OnesOf(b, 18, 0, 512);
    OnesOf(b, 16, 512, 10);
    OnesOf(b, 14, 522, 256);
    OnesOf(b, 12, 778, 10);
    OnesOf(b, 10, 788, 0);
    OnesOf(b, 8, 788, 4416);
    OnesOf(b, 6, 5204, 0);
    OnesOf(b, 4, 5204, 60234);
    OnesOf(b, 2, 65438, 28);
    OnesOf(b, 0, 65466, 69);
    assert b[0..] == b;
  }

  lemma {:induction false} NoWords(b: seq<byte>)
    ensures Checksum.OnesSum(b[|b|..]) == 0
  {}

  /** One more word before a tail without carry. */
  lemma {:induction false} OnesOf(b: seq<byte>, i: nat, rest: nat, word: nat)
    requires i + 2 <= |b| && Checksum.Word(b[i], b[i + 1]) == word
    requires Checksum.OnesSum(b[i + 2..]) == rest && word + rest < U16
    ensures Checksum.OnesSum(b[i..]) == word + rest
  {
    assert b[i..][2..] == b[i + 2..];
  }

  /** 24 bytes at MTU 36 make two fragments. Both arrive, in order, in an empty table, with memory
      free: neither call returns the packet. */
  lemma {:induction false} TwoFragmentsLost(p: Ipv4.Packet, frame: seq<byte>)
    requires |p.payload| == 24 && |frame| == Reassembly.BUFFER
    ensures var t := seq(Reassembly.SLOTS, _ => Reassembly.Free);
      var fs := Fragmentation.FragmentsOf(p, 36);
      && |fs| == 2
      && var arrivals := [ReassemblyRuns.Arrival(fs[0], Common.Some(frame), true),
                          ReassemblyRuns.Arrival(fs[1], Common.Some(frame), true)];
        var ds := {RoundTrip.DatagramOf(p)};
        && Completion.RunOk(t, ds, arrivals)
        && ReassemblyRuns.Run(t, ds, arrivals).packets == [Common.None, Common.None]
  {
    hide Ipv4.Sealed, Reassembly.Feed, RoundTrip.NoUnitOne, Ipv4.OffsetUnits, ReassemblyRuns.IsFragment;
    var t := seq(Reassembly.SLOTS, _ => Reassembly.Free);
    var fs := Fragmentation.FragmentsOf(p, 36);
    var d := RoundTrip.DatagramOf(p);
    assert Fragmentation.MaxData(36) == 16;
    assert |fs| == 2;
    var arrivals := [ReassemblyRuns.Arrival(fs[0], Common.Some(frame), true),
                     ReassemblyRuns.Arrival(fs[1], Common.Some(frame), true)];
    RoundTrip.NotAtUnitOne(fs[0], p, 36);
    RoundTrip.NotAtUnitOne(fs[1], p, 36);
    FragmentKey(fs[0], d);
    FragmentKey(fs[1], d);
    EmptyNoUnitOne(t, d);
    RoundTrip.NeverReassembled(t, {d}, arrivals, p, 36);
    var packets := ReassemblyRuns.Run(t, {d}, arrivals).packets;
    assert |packets| == 2 && packets[0].None? && packets[1].None?;
  }

  /** 8 bytes make one fragment at any MTU: it arrives in an empty table and the packet is returned. */
  lemma {:induction false} OneFragmentDelivered(p: Ipv4.Packet, frame: seq<byte>)
    requires |p.payload| == 8 && |frame| == Reassembly.BUFFER
    ensures var t := seq(Reassembly.SLOTS, _ => Reassembly.Free);
      var fs := Fragmentation.FragmentsOf(p, 28);
      var ds := {RoundTrip.DatagramOf(p)};
      && |fs| == 1 && Completion.RunOk(t, ds, [ReassemblyRuns.Arrival(fs[0], Common.Some(frame), true)])
      && var packets := ReassemblyRuns.Run(t, ds, [ReassemblyRuns.Arrival(fs[0], Common.Some(frame), true)]).packets;
        packets[0].Some? && ReassemblyRuns.Delivers(packets[0].value, RoundTrip.DatagramOf(p))
  {
    hide Ipv4.Sealed, Reassembly.Feed, Ipv4.OffsetUnits, ReassemblyRuns.IsFragment, ReassemblyRuns.Delivers,
      ReassemblyRuns.Holds;
    var t := seq(Reassembly.SLOTS, _ => Reassembly.Free);
    var fs := Fragmentation.FragmentsOf(p, 28);
    var d := RoundTrip.DatagramOf(p);
    assert Fragmentation.MaxData(28) == 8;
    assert |fs| == 1;
    var a := ReassemblyRuns.Arrival(fs[0], Common.Some(frame), true);
    RoundTrip.FragmentIsCut(p, 28, 0);
    FragmentKey(fs[0], d);
    EmptyNoUnitOne(t, d);
    ReassemblyRuns.EmptyTableSound(t, {d});
    assert [a][..0] == [];
    assert RoundTrip.OwnArrivals([a], d) == [a];
    assert RoundTrip.Arrived([a]) == [fs[0]] == fs;
    assert Reassembly.Target(t, a.f.h, a.frames).Some?;
    assert Completion.AllServed(t, {d}, [a], d);
    var j := RoundTrip.ShuffledReassembly(t, {d}, [a], p, 28);
  }

  lemma {:induction false} FragmentKey(f: Ipv4.Packet, d: ReassemblyRuns.Datagram)
    requires ReassemblyRuns.IsFragment(f, d)
    ensures ReassemblyRuns.HasKey(f.h, d)
  {}

  lemma {:induction false} EmptyNoUnitOne(t: seq<Reassembly.Slot>, d: ReassemblyRuns.Datagram)
    requires t == seq(Reassembly.SLOTS, _ => Reassembly.Free)
    ensures Reassembly.TableOk(t) && Reassembly.TotalsOk(t) && RoundTrip.NoUnitOne(t, d)
  {}

  // ---------------------------------------------------------------- clones

  /** Seven frames: 0 reserved, 1 the directory, 2 its only table, 3 the page that two of its cells
      map writable, 4 to 6 free. */
  ghost predicate IsSmall(s: PageTables.Machine) {
    && |s.m| == 7 && s.v == [true, true, true, true, false, false, false]
    && s.m[1] == PageTables.Zeroed()[0 := PageTables.Entry(2, 7)]
    && s.m[2] == PageTables.Zeroed()[0 := PageTables.Entry(3, 7)][1 := PageTables.Entry(3, 7)]
  }

  lemma {:induction false} SmallExists() returns (s: PageTables.Machine)
    ensures IsSmall(s)
  {
    var z := PageTables.Zeroed();
    var e := PageTables.Entry(3, 7);
    s := PageTables.Machine([z, z[0 := PageTables.Entry(2, 7)], z[0 := e][1 := e], z, z, z, z],
                            [true, true, true, true, false, false, false]);
  }

  /** A clone in it needs a directory, a table and two copies, one frame more than there is; the copy
      it has made by then stays in use. */
  lemma {:induction false} FailedCloneLeaks(s: PageTables.Machine)
    requires IsSmall(s)
    ensures PageTables.WellFormed(s, 1) && Clone.SourcesUsed(s, 1)
    ensures Count(s.v) + Clone.Cost(s.m, 1, PageTables.WORDS) > |s.v|
    ensures forall after, owner :: CloneLeaks.LeftBehind(s, after, 1, owner) ==> after.v != s.v
  {
    SmallWellFormed(s);
    SmallCount(s.v);
    SmallCost(s);
    SmallFirst(s);
  }

  lemma {:induction false} SmallWellFormed(s: PageTables.Machine)
    requires IsSmall(s)
    ensures PageTables.WellFormed(s, 1) && Clone.SourcesUsed(s, 1)
  {
    assert !PageTables.Present(0);
    forall i | 0 <= i < PageTables.WORDS
      ensures PageTables.TableOk(s, 1, i)
    {
      assert PageTables.Present(s.m[1][i]) ==> i == 0 && PageTables.TableAt(s.m, 1, i) == 2;
    }
    forall i, j | 0 <= i < PageTables.WORDS && 0 <= j < PageTables.WORDS
        && PageTables.Present(PageTables.Cell(s.m, 1, i, j))
      ensures PageTables.FrameOf(PageTables.Cell(s.m, 1, i, j)) == 3
    {
      assert i == 0 && PageTables.TableAt(s.m, 1, 0) == 2;
    }
  }

  lemma {:induction false} SmallCount(v: Bitmap)
    requires v == [true, true, true, true, false, false, false]
    ensures Count(v) == 4
  {
    assert v == [true, true] + [true, true] + [false, false] + [false];
    CloneLeaks.CountConcat([true, true], [true, true]);
    CloneLeaks.CountConcat([true, true] + [true, true], [false, false]);
    CloneLeaks.CountConcat([true, true] + [true, true] + [false, false], [false]);
    CloneLeaks.CountAll([true, true], true);
    CloneLeaks.CountAll([false, false], false);
    CloneLeaks.CountAll([false], false);
  }

  lemma {:induction false} SmallCell(s: PageTables.Machine, j: nat)
    requires IsSmall(s) && j < 2
    ensures PageTables.Present(s.m[1][0]) && Clone.IsCopied(PageTables.Cell(s.m, 1, 0, j))
  {
    assert PageTables.TableAt(s.m, 1, 0) == 2;
  }

  lemma {:induction false} SmallCost(s: PageTables.Machine)
    requires IsSmall(s)
    ensures Clone.Cost(s.m, 1, PageTables.WORDS) >= 4
  {
    SmallCell(s, 0);
    SmallCell(s, 1);
    assert Clone.CellCost(s.m, 1, 0, 1) == 1;
    assert Clone.CellCost(s.m, 1, 0, 2) == 2;
    Clone.CellCostGrows(s.m, 1, 0, 2, PageTables.WORDS);
    assert Clone.Cost(s.m, 1, 0) == 1;
    Clone.CostGrows(s.m, 1, 1, PageTables.WORDS);
  }

  lemma {:induction false} SmallFirst(s: PageTables.Machine)
    requires IsSmall(s)
    ensures CloneLeaks.FirstWritable(s.m, 1, 0) == 0 && CloneLeaks.TablesIn(s.m, 1, 1) == 1
  {
    SmallCell(s, 0);
    assert CloneLeaks.HasCopies(s.m, 1, 0);
    assert CloneLeaks.TablesIn(s.m, 1, 0) == 0;
  }

  /** Frames 0 reserved, 1 a directory whose only table, for the first 4 MB above 3 GB, is frame 2 and
      maps one page to frame 3; frame 4 is free. */
  ghost predicate IsKernelOnly(s: PageTables.Machine) {
    && |s.m| == 5 && s.v == [true, true, true, true, false]
    && s.m[1] == PageTables.Zeroed()[Clone.KERNEL := PageTables.Entry(2, 7)]
    && s.m[2] == PageTables.Zeroed()[0 := PageTables.Entry(3, 3)]
  }

  /** What vmm_clone_directory makes of it: the new directory in frame 4. */
  function KernelClone(s: PageTables.Machine): PageTables.Machine
    requires |s.m| == |s.v| == 5
  {
    PageTables.Machine(s.m[4 := s.m[1]], s.v[4 := true])
  }

  lemma {:induction false} KernelOnlyExists() returns (s: PageTables.Machine)
    ensures IsKernelOnly(s)
  {
    var z := PageTables.Zeroed();
    s := PageTables.Machine([z, z[Clone.KERNEL := PageTables.Entry(2, 7)], z[0 := PageTables.Entry(3, 3)], z, z],
                            [true, true, true, true, false]);
  }

  lemma {:induction false} KernelSlots(s: PageTables.Machine, i: nat)
    requires IsKernelOnly(s) && i < PageTables.WORDS
    ensures PageTables.Present(s.m[1][i]) <==> i == Clone.KERNEL
    ensures i == Clone.KERNEL ==> PageTables.TableAt(s.m, 1, i) == 2
  {
    assert !PageTables.Present(0);
  }

  lemma {:induction false} KernelCloneFormed(s: PageTables.Machine)
    requires IsKernelOnly(s)
    ensures PageTables.WellFormed(s, 1) && PageTables.WellFormed(KernelClone(s), 4)
  {
    hide IsKernelOnly;
    KernelSizes(s);
    forall i | 0 <= i < PageTables.WORDS
      ensures PageTables.TableOk(s, 1, i) && PageTables.TableOk(KernelClone(s), 4, i)
      ensures PageTables.Present(s.m[1][i]) <==> i == Clone.KERNEL
    {
      KernelSlots(s, i);
    }
  }

  lemma {:induction false} KernelSizes(s: PageTables.Machine)
    requires IsKernelOnly(s)
    ensures |s.m| == |s.v| == 5 && s.v[0] && s.v[1] && s.v[2] && !s.v[4]
  {}

  lemma {:induction false} KernelCloneIs(s: PageTables.Machine)
    requires IsKernelOnly(s)
    ensures Clone.IsClone(s, KernelClone(s), 1, 4)
  {
    hide IsKernelOnly;
    KernelSizes(s);
    var s' := KernelClone(s);
    KernelCloneFormed(s);
    forall p: nat | p < PageTables.PAGES
      ensures PageTables.EntryAt(s'.m, 4, p) == PageTables.EntryAt(s.m, 1, p)
      ensures PageTables.Present(PageTables.EntryAt(s.m, 1, p)) ==> p / 1024 == Clone.KERNEL
    {
      KernelSlots(s, p / 1024);
      assert !PageTables.Present(0);
    }
    forall k | 0 <= k < PageTables.WORDS
      ensures Clone.SlotCloned(s, s', 1, 4, k)
    {
      KernelSlots(s, k);
    }
  }

  /** Freeing that clone marks frame 2 free, the table the source still uses. */
  lemma {:induction false} FreedCloneUnderSource(s: PageTables.Machine, v: Bitmap)
    requires IsKernelOnly(s) && |v| == 5
    requires forall f | 0 <= f < |v| ::
      v[f] <==> KernelClone(s).v[f] && f != 4 && !PageTables.IsTable(KernelClone(s).m, 4, PageTables.WORDS, f)
    ensures Clone.IsClone(s, KernelClone(s), 1, 4)
    ensures !v[2] && !PageTables.WellFormed(PageTables.Machine(KernelClone(s).m, v), 1)
  {
    hide PageTables.WellFormed, Clone.IsClone, IsKernelOnly;
    KernelSizes(s);
    KernelCloneIs(s);
    var page := Clone.KERNEL * PageTables.WORDS;
    KernelSlots(s, Clone.KERNEL);
    KernelPage(s);
    AddressSpaces.FreedCloneBreaksSource(s, KernelClone(s), 1, 4, v, page);
  }

  lemma {:induction false} KernelPage(s: PageTables.Machine)
    requires IsKernelOnly(s)
    ensures Clone.KERNEL * PageTables.WORDS in PageTables.View(KernelClone(s).m, 1)
  {
    KernelSlots(s, Clone.KERNEL);
    assert PageTables.EntryAt(KernelClone(s).m, 1, Clone.KERNEL * PageTables.WORDS) == PageTables.Entry(3, 3);
  }
}
