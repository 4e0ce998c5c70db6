/** vmm_identity_map and the mapping loops of vmm_init (mem/vmm.c). */
module KernelMap {
  import opened Bits
  import opened Bitmaps
  import opened PageTables
  import opened Clone
  import opened CloneIsolation
  import opened Vmm
  import opened Seqs
  import Pmm

  const LOW_PAGES: nat := 2560       // 10 MB
  const HIGH_PAGE: nat := 0xC_0000   // page of address 0xC0000000
  const KERNEL_FLAGS: nat := 3       // present, writable

  /** Pages from..to - 1 of physical memory mapped `shift` pages higher, one call after another. */
  ghost function MapRange(s: Machine, dir: nat, from: nat, to: nat, shift: nat, flags: nat): (s': Machine)
    requires WellFormed(s, dir) && to + shift <= PAGES && flags < 4096
    ensures WellFormed(s', dir)
  {
    if to <= from then s
    else
      var before := MapRange(s, dir, from, to - 1, shift, flags);
      MapPageRefines(before, dir, to - 1 + shift, Entry(to - 1, flags));
      MapPage(before, dir, to - 1 + shift, Entry(to - 1, flags)).s
  }

  function PresentSlots(s: Machine, dir: nat): set<nat>
    requires dir < |s.m|
  {
    set i: nat | i < WORDS && Present(s.m[dir][i])
  }

  /** Every frame vmm_map_page takes becomes the table of one more slot, and it fails exactly when
      it would need a frame and none is left. */
  lemma {:induction false} MapPageTakesTables(s: Machine, dir: nat, page: nat, e: u32)
    requires WellFormed(s, dir) && page < PAGES
    ensures var Outcome(s', ok) := MapPage(s, dir, page, e);
      && |s'.m| == |s.m| && |s'.v| == |s.v|
      && PresentSlots(s', dir) == PresentSlots(s, dir) + (if ok then {page / 1024} else {})
      && Count(s'.v) - |PresentSlots(s', dir)| == Count(s.v) - |PresentSlots(s, dir)|
      && (!ok ==> page / 1024 !in PresentSlots(s, dir) && Count(s.v) == |s.v|)
  {
    hide View, TablesDistinct, Search, Count, TableOk;
    var i := page / 1024;
    var s1 := WithTable(s, dir, i);
    WithTableCases(s, dir, i);
    MapPageByTable(s, dir, page, e);
    SearchOne(s.v);
    if Present(s1.m[dir][i]) {
      TableNotDir(s1, dir, i);
    }
    if !Present(s.m[dir][i]) && Search(s.v, 1, 0) != -1 {
      var t := Search(s.v, 1, 0);
      assert !s.v[t];
      CountUpdate(s.v, t, true);
      assert PresentSlots(s1, dir) == PresentSlots(s, dir) + {i};
    }
    assert MapPage(s, dir, page, e).s.m[dir] == s1.m[dir];
    assert PresentSlots(MapPage(s, dir, page, e).s, dir) == PresentSlots(s1, dir);
  }

  lemma {:induction false} TableNotDir(s: Machine, dir: nat, i: nat)
    requires WellFormed(s, dir) && i < WORDS && Present(s.m[dir][i])
    ensures TableAt(s.m, dir, i) != dir
  {
    assert TableOk(s, dir, i);
  }

  /** The page map after every call of MapRange succeeded. */
  function Overlay(f: map<nat, Mapping>, from: nat, to: nat, shift: nat, flags: nat): map<nat, Mapping>
    requires to <= PAGES && flags < 4096
  {
    if to <= from then f
    else Bind(Overlay(f, from, to - 1, shift, flags), to - 1 + shift, Entry(to - 1, flags))
  }

  lemma {:induction false} OverlayAt(f: map<nat, Mapping>, from: nat, to: nat, shift: nat, flags: nat, p: nat)
    requires to <= PAGES && flags < 4096 && Present(flags)
    ensures p in Overlay(f, from, to, shift, flags) <==> p in f || from + shift <= p < to + shift
    ensures from + shift <= p < to + shift ==> Overlay(f, from, to, shift, flags)[p] == Mapping(p - shift, flags)
    ensures p in f && !(from + shift <= p < to + shift) ==> Overlay(f, from, to, shift, flags)[p] == f[p]
  {
    if from < to {
      OverlayAt(f, from, to - 1, shift, flags, p);
    }
  }

  /** The slots touched by a range, all within `slots`. */
  ghost predicate Within(from: nat, to: nat, shift: nat, slots: set<nat>) {
    forall p: nat | from <= p < to :: SlotIn(p, shift, slots)
  }

  predicate SlotIn(p: nat, shift: nat, slots: set<nat>) {
    (p + shift) / 1024 in slots
  }

  /** MapRange never maps outside `slots`; with a free frame for each slot still missing it maps
      every page of the range. */
  lemma {:induction false} MapRangeEffect(s: Machine, dir: nat, from: nat, to: nat, shift: nat, flags: nat,
                                          slots: set<nat>)
    requires WellFormed(s, dir) && to + shift <= PAGES && flags < 4096
    requires PresentSlots(s, dir) <= slots && Within(from, to, shift, slots)
    ensures var s' := MapRange(s, dir, from, to, shift, flags);
      && |s'.m| == |s.m| && |s'.v| == |s.v|
      && PresentSlots(s', dir) <= slots
      && Count(s'.v) - |PresentSlots(s', dir)| == Count(s.v) - |PresentSlots(s, dir)|
      && (Count(s.v) + |slots| - |PresentSlots(s, dir)| <= |s.v| ==>
          View(s'.m, dir) == Overlay(View(s.m, dir), from, to, shift, flags))
  {
    hide View, WellFormed, MapPage, Count, PresentSlots, Bind;
    if from < to {
      assert forall p: nat | from <= p < to - 1 :: SlotIn(p, shift, slots);
      assert SlotIn(to - 1, shift, slots);
      MapRangeEffect(s, dir, from, to - 1, shift, flags, slots);
      var before := MapRange(s, dir, from, to - 1, shift, flags);
      var page, e := to - 1 + shift, Entry(to - 1, flags);
      MapPageRefines(before, dir, page, e);
      MapPageTakesTables(before, dir, page, e);
      if !MapPage(before, dir, page, e).ok {
        Smaller(PresentSlots(before, dir), slots, page / 1024);
      }
    }
  }

  lemma {:induction false} Smaller(a: set<nat>, b: set<nat>, x: nat)
    requires a <= b && x in b && x !in a
    ensures |a| < |b|
  {
    SubsetSize(a, b - {x});
  }

  const KERNEL_SLOTS: set<nat> := {0, 1, 2, 768, 769, 770}

  predicate IsKernelPage(p: nat) {
    p < LOW_PAGES || HIGH_PAGE <= p < HIGH_PAGE + LOW_PAGES
  }

  /** What the kernel directory is meant to hold: a -> a and a + 0xC0000000 -> a below 10 MB. */
  function KernelView(): map<nat, Mapping> {
    map p: nat | p < PAGES && IsKernelPage(p) ::
      Mapping(if p < LOW_PAGES then p else p - HIGH_PAGE, KERNEL_FLAGS)
  }

  lemma {:induction false} KernelOverlay()
    ensures Overlay(Overlay(Overlay(map[], 0, 1024, 0, KERNEL_FLAGS), 256, LOW_PAGES, 0, KERNEL_FLAGS),
                    0, LOW_PAGES, HIGH_PAGE, KERNEL_FLAGS) == KernelView()
  {
    hide Overlay;
    var a := Overlay(map[], 0, 1024, 0, KERNEL_FLAGS);
    var b := Overlay(a, 256, LOW_PAGES, 0, KERNEL_FLAGS);
    var c := Overlay(b, 0, LOW_PAGES, HIGH_PAGE, KERNEL_FLAGS);
    forall p: nat
      ensures p in c <==> p in KernelView()
      ensures p in c ==> c[p] == KernelView()[p]
    {
      OverlayAt(map[], 0, 1024, 0, KERNEL_FLAGS, p);
      OverlayAt(a, 256, LOW_PAGES, 0, KERNEL_FLAGS, p);
      OverlayAt(b, 0, LOW_PAGES, HIGH_PAGE, KERNEL_FLAGS, p);
    }
  }

  /** The state after the three mapping loops, from an empty directory. */
  ghost function KernelMapped(s: Machine, dir: nat): (s': Machine)
    requires WellFormed(s, dir)
    ensures WellFormed(s', dir)
  {
    var s1 := MapRange(s, dir, 0, 1024, 0, KERNEL_FLAGS);
    var s2 := MapRange(s1, dir, 256, LOW_PAGES, 0, KERNEL_FLAGS);
    MapRange(s2, dir, 0, LOW_PAGES, HIGH_PAGE, KERNEL_FLAGS)
  }

  lemma {:induction false} KernelSlotsOf()
    ensures Within(0, 1024, 0, KERNEL_SLOTS) && Within(256, LOW_PAGES, 0, KERNEL_SLOTS)
    ensures Within(0, LOW_PAGES, HIGH_PAGE, KERNEL_SLOTS)
    ensures |KERNEL_SLOTS| == 6
  {}

  /** The three loops produce the kernel map exactly when a frame is free for each of its six
      tables; the loops themselves ignore failures. */
  lemma {:induction false} KernelMapExact(s: Machine, dir: nat)
    requires WellFormed(s, dir) && PresentSlots(s, dir) == {} && View(s.m, dir) == map[]
    ensures dir < |KernelMapped(s, dir).m|
    ensures View(KernelMapped(s, dir).m, dir) == KernelView() <==> Count(s.v) + 6 <= |s.v|
  {
    hide View, MapRange, WellFormed, Overlay, Count, PresentSlots;
    WellFormedBounds(s, dir);
    var s1 := MapRange(s, dir, 0, 1024, 0, KERNEL_FLAGS);
    var s2 := MapRange(s1, dir, 256, LOW_PAGES, 0, KERNEL_FLAGS);
    KernelSlotsOf();
    KernelOverlay();
    MapRangeEffect(s, dir, 0, 1024, 0, KERNEL_FLAGS, KERNEL_SLOTS);
    MapRangeEffect(s1, dir, 256, LOW_PAGES, 0, KERNEL_FLAGS, KERNEL_SLOTS);
    MapRangeEffect(s2, dir, 0, LOW_PAGES, HIGH_PAGE, KERNEL_FLAGS, KERNEL_SLOTS);
    var s3 := KernelMapped(s, dir);
    if View(s3.m, dir) == KernelView() {
      KernelNeedsSlots(s3, dir);
      SubsetSize(KERNEL_SLOTS, PresentSlots(s3, dir));
    }
  }

  lemma {:induction false} KernelNeedsSlots(s: Machine, dir: nat)
    requires dir < |s.m| && View(s.m, dir) == KernelView()
    ensures KERNEL_SLOTS <= PresentSlots(s, dir)
  {
    forall i | i in KERNEL_SLOTS
      ensures i in PresentSlots(s, dir)
    {
      assert i * 1024 in KernelView();
      assert Present(EntryAt(s.m, dir, i * 1024));
      assert (i * 1024) / 1024 == i;
    }
  }

  /** vmm_identity_map: the pages of [start, end), with end rounded up to a page in 32 bits. */
  method IdentityMap(vm: PagedMemory, dir: u32, start: u32, end: u32, flags: u32)
    requires vm.Valid() && dir % 4096 == 0 && WellFormed(vm.State(), dir / 4096)
    modifies vm.mem, vm.pmm.memoryMap, vm.pmm`used
    ensures vm.Valid()
    ensures vm.State() ==
      MapRange(old(vm.State()), dir / 4096, start / 4096, Add32(end, 0xFFF) / 4096, 0, FlagsOf(flags))
  {
    hide Pmm.Allocator.View, View, WellFormed, MapPage, MapEntry, And, Bind;
    EntryBits(start);
    EntryBits(Add32(end, 0xFFF));
    var first := And(start, Not32(0xFFF));
    var last := And(Add32(end, 0xFFF), Not32(0xFFF));
    ghost var s := vm.State();
    ghost var n := start / 4096;
    var addr := first;
    while addr < last
      invariant addr == n * 4096 && (n <= last / 4096 || n == start / 4096) && start / 4096 <= n
      invariant vm.Valid() && vm.State() == MapRange(s, dir / 4096, start / 4096, n, 0, FlagsOf(flags))
      decreases if addr < last then last - addr else 0
    {
      MapEntryOfPage(n, flags);
      var _ := vm.MapPage(dir, addr, addr, flags);
      addr := addr + 4096;
      n := n + 1;
    }
  }

  lemma {:induction false} MapEntryOfPage(n: nat, flags: u32)
    requires n < PAGES
    ensures MapEntry(n * 4096, flags) == Entry(n, FlagsOf(flags)) && (n * 4096) / 4096 == n
  {
    MulMod(n, 4096);
  }

  /** The mapping part of vmm_init: the kernel directory holds exactly the intended map if and only
      if seven frames were free, one for the directory and six for its tables. */
  method InitKernelDirectory(vm: PagedMemory) returns (dir: u32)
    requires vm.Valid() && vm.mem.Length <= PAGES
    modifies vm.mem, vm.pmm.memoryMap, vm.pmm`used
    ensures vm.Valid()
    ensures dir == 0 <==> Count(old(vm.State().v)) == |old(vm.State().v)|
    ensures dir != 0 ==> dir % 4096 == 0 && WellFormed(vm.State(), dir / 4096)
    ensures dir != 0 && View(vm.State().m, dir / 4096) == KernelView() <==>
      Count(old(vm.State().v)) + 7 <= |old(vm.State().v)|
    ensures Count(old(vm.State().v)) + 7 <= |old(vm.State().v)| ==>
      dir != 0 && forall virt :: ReachesLow(vm.State().m, dir / 4096, virt)
  {
    hide Pmm.Allocator.View, View, WellFormed, MapPage, MapEntry, Bind, MapRange, Count, PresentSlots, KernelView,
      ReachesLow;
    ghost var s0 := vm.State();
    SearchOne(s0.v);
    dir := vm.CreateDirectory();
    if dir == 0 {
      return;
    }
    ghost var d := dir / 4096;
    ghost var s := vm.State();
    EmptyDirectory(s0, d);
    KernelMapExact(s, d);
    IdentityMap(vm, dir, 0, 4 * 1024 * 1024, 3);
    IdentityMap(vm, dir, 1 * 1024 * 1024, 10 * 1024 * 1024, 3);
    ghost var s2 := vm.State();
    MapRangeEmpty(s2, d);
    var i := 0;
    while i < 10 * 1024 * 1024
      invariant i % 4096 == 0 && i <= 10 * 1024 * 1024
      invariant vm.Valid() && vm.State() == MapRange(s2, d, 0, i / 4096, HIGH_PAGE, KERNEL_FLAGS)
    {
      HighPage(i);
      MapRangeStep(s2, d, i / 4096);
      var _ := vm.MapPage(dir, i, i + 0xC000_0000, 3);
      i := i + 4096;
    }
    KernelReach(vm.State().m, d);
  }

  lemma {:induction false} KernelReach(m: seq<Frame>, dir: nat)
    requires dir < |m|
    ensures View(m, dir) == KernelView() ==> forall virt :: ReachesLow(m, dir, virt)
  {
    hide View, KernelView, ReachesLow;
    if View(m, dir) == KernelView() {
      forall virt: u32
        ensures ReachesLow(m, dir, virt)
      {
        KernelAddresses(m, dir, virt);
      }
    }
  }

  lemma {:induction false} HighPage(i: u32)
    requires i % 4096 == 0 && i < 10 * 1024 * 1024
    ensures (i + 0xC000_0000) / 4096 == i / 4096 + HIGH_PAGE && (i + 4096) / 4096 == i / 4096 + 1
    ensures MapEntry(i, 3) == Entry(i / 4096, KERNEL_FLAGS)
  {}

  lemma {:induction false} MapRangeStep(s: Machine, dir: nat, n: nat)
    requires WellFormed(s, dir) && n < LOW_PAGES
    ensures var before := MapRange(s, dir, 0, n, HIGH_PAGE, KERNEL_FLAGS);
      MapRange(s, dir, 0, n + 1, HIGH_PAGE, KERNEL_FLAGS)
        == MapPage(before, dir, n + HIGH_PAGE, Entry(n, KERNEL_FLAGS)).s
  {}

  lemma {:induction false} MapRangeEmpty(s: Machine, dir: nat)
    requires WellFormed(s, dir)
    ensures MapRange(s, dir, 0, 0, HIGH_PAGE, KERNEL_FLAGS) == s
  {}

  lemma {:induction false} EmptyDirectory(s: Machine, d: nat)
    requires |s.m| == |s.v| <= PAGES && |s.v| > 0 && s.v[0] && Search(s.v, 1, 0) == d > 0
    ensures var s' := Machine(s.m[d := Zeroed()], s.v[d := true]);
      && d < |s.m| && WellFormed(s', d) && PresentSlots(s', d) == {} && View(s'.m, d) == map[]
      && Count(s'.v) == Count(s.v) + 1
  {
    SearchOne(s.v);
    CountUpdate(s.v, d, true);
  }

  /** Addresses below 10 MB and the same ones from 3 GB on reach the first 10 MB, writable; no other
      address is mapped. */
  predicate ReachesLow(m: seq<Frame>, dir: nat, virt: u32) {
    && dir < |m|
    && Translate(m, dir, virt) ==
       (if virt < 0xA0_0000 then (true, virt)
        else if 0xC000_0000 <= virt < 0xC0A0_0000 then (true, virt - 0xC000_0000)
        else (false, 0))
    && (Translate(m, dir, virt).0 ==> (EntryAt(m, dir, virt / 4096) / 2) % 2 == 1)
  }

  /** What the kernel directory means for addresses. */
  lemma {:induction false} KernelAddresses(m: seq<Frame>, dir: nat, virt: u32)
    requires dir < |m| && View(m, dir) == KernelView()
    ensures ReachesLow(m, dir, virt)
  {
    var p := virt / 4096;
    assert p in View(m, dir) <==> Present(EntryAt(m, dir, p));
    assert p in View(m, dir) <==> p in KernelView();
    if p in KernelView() {
      assert View(m, dir)[p] == KernelView()[p];
      FlagBitsOf(EntryAt(m, dir, p));
    }
  }

  /** A clone of the kernel directory shares exactly the pages from 3 GB on: the low 10 MB, mapped
      writable, become copies of its own. */
  lemma {:induction false} KernelCloneShares(s0: Machine, s: Machine, src: nat, dest: nat, p: nat)
    requires IsClone(s0, s, src, dest) && src < |s0.m| && View(s0.m, src) == KernelView() && p in KernelView()
    ensures src < |s.m| == |s0.v| && dest < |s.m| && p < PAGES && p in View(s.m, dest)
    ensures SharesPage(s.m, src, dest, p) <==> p >= 0xC_0000
    ensures p >= 0xC_0000 ==> View(s.m, dest)[p] == Mapping(p - 0xC_0000, 3)
    ensures p < 0xC_0000 ==>
      var f := View(s.m, dest)[p].frame;
      View(s.m, dest)[p].flags == 3 && f < |s0.v| && !s0.v[f] && p < |s0.m| && s.m[f] == s0.m[p]
  {
    hide IsClone, Cell, KernelView;
    CloneOnPage(s0, s, src, dest, p);
    KernelPage(p);
    CloneIsApart(s0, s, src, dest);
    if p < 0xC_0000 {
      assert !SharesPage(s.m, src, dest, p);
    } else {
      SharedSlot(s0, s, src, dest, p);
    }
  }

  lemma {:induction false} KernelPage(p: nat)
    requires p in KernelView()
    ensures p < 0xA00 || 0xC_0000 <= p < 0xC_0A00
    ensures KernelView()[p] == if p < 0xC_0000 then Mapping(p, 3) else Mapping(p - 0xC_0000, 3)
  {}

  lemma {:induction false} SharedSlot(s0: Machine, s: Machine, src: nat, dest: nat, p: nat)
    requires IsClone(s0, s, src, dest) && src < |s0.m| && p in View(s0.m, src) && p >= 0xC_0000
    ensures src < |s.m| && dest < |s.m| && p < PAGES && SharesPage(s.m, src, dest, p)
  {
    SourceUnchanged(s0, s, src);
    assert SlotCloned(s0, s, src, dest, p / 1024);
  }
}
