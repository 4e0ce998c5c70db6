/** Two-level page tables stored in physical frames (mem/vmm.c), specified on values.
    A machine state is the contents of every physical frame plus the allocator's bitmap. */
module PageTables {
  import opened Bits
  import opened Bitmaps

  const PAGE: nat := 4096
  const WORDS: nat := 1024
  const PAGES: nat := 0x10_0000
  const NEW_TABLE_FLAGS: nat := 7 // present, writable, user

  type Frame = f: seq<u32> | |f| == 1024 witness seq(1024, _ => 0)

  function Zeroed(): (f: Frame)
    ensures forall j | 0 <= j < 1024 :: f[j] == 0
  {
    seq(1024, _ => 0)
  }

  datatype Machine = Machine(m: seq<Frame>, v: Bitmap)

  /** The state after a call and the success flag the call returns. */
  datatype Outcome = Outcome(s: Machine, ok: bool)

  /** A directory or table entry: a frame number above twelve flag bits. */
  predicate Present(e: u32) { e % 2 == 1 }

  predicate Writable(e: u32) { (e / 2) % 2 == 1 }

  function FrameOf(e: u32): nat { e / 4096 }

  function FlagsOf(e: u32): nat { e % 4096 }

  function Entry(frame: nat, flags: nat): (e: u32)
    requires frame < PAGES && flags < 4096
    ensures FrameOf(e) == frame && FlagsOf(e) == flags
    ensures Present(e) == Present(flags)
    ensures Writable(e) == Writable(flags)
  {
    EntryFields(frame, flags);
    frame * 4096 + flags
  }

  lemma {:induction false} EntryFields(frame: nat, flags: nat)
    requires frame < PAGES && flags < 4096
    ensures FrameOf(frame * 4096 + flags) == frame && FlagsOf(frame * 4096 + flags) == flags
    ensures Present(frame * 4096 + flags) == Present(flags)
    ensures Writable(frame * 4096 + flags) == Writable(flags)
  {
    var e := frame * 4096 + flags;
    DivModUnique(e, 4096, frame, flags);
    DivModUnique(e, 2, frame * 2048 + flags / 2, flags % 2);
    DivModUnique(e / 2, 2, frame * 1024 + (flags / 2) / 2, (flags / 2) % 2);
  }

  /** The entry vmm_map_page stores: the frame of phys under the low twelve bits of flags. */
  function MapEntry(phys: u32, flags: u32): u32 {
    Entry(FrameOf(phys), FlagsOf(flags))
  }

  /** The masks and shifts of the source compute these fields. */
  lemma {:induction false} EntryBits(e: u32)
    ensures (And(e, 1) != 0) == Present(e)
    ensures (And(e, 2) != 0) == Writable(e)
    ensures And(e, Not32(0xFFF)) == FrameOf(e) * 4096
    ensures And(e, 0xFFF) == FlagsOf(e)
  {
    Pow2Values();
    AndSingleBit(e, 0);
    AndSingleBit(e, 1);
    assert Bit(e, 1) == Bit(e / 2, 0);
    AndIsHighBits(e, 32, 12);
    AndIsLowBits(e, 12);
  }

  lemma {:induction false} PackBits(phys: u32, flags: u32)
    ensures Or(And(phys, Not32(0xFFF)), And(flags, 0xFFF)) == MapEntry(phys, flags)
  {
    EntryBits(phys);
    EntryBits(flags);
    OrAboveTwelve(FrameOf(phys), FlagsOf(flags));
  }

  lemma {:induction false} OrAboveTwelve(frame: nat, low: nat)
    requires low < 4096
    ensures Or(frame * 4096, low) == frame * 4096 + low
  {
    assert Pow2(12) == 4096 by {
      Pow2Values();
    }
    MulMod(frame, 4096);
    OrIsPack(frame * 4096, low, 12);
  }

  lemma {:induction false} OrDef(x: nat, y: nat)
    ensures Or(x, y) == 2 * Or(x / 2, y / 2) + (if x % 2 == 1 || y % 2 == 1 then 1 else 0)
  {}

  lemma {:induction false} OrZero(x: nat)
    ensures Or(x, 0) == x
  {}

  lemma {:induction false} OrBits(q: nat)
    ensures Or(2 * q, 1) == 2 * q + 1
    ensures Or(4 * q + 1, 2) == 4 * q + 3
    ensures Or(8 * q + 3, 4) == 8 * q + 7
  {
    hide Or;
    OrZero(q);
    OrDef(2 * q, 1);
    OrDef(4 * q + 1, 2);
    OrDef(8 * q + 3, 4);
  }

  lemma {:induction false} OrSeven(q: nat)
    ensures Or(Or(Or(8 * q, 1), 2), 4) == 8 * q + 7
  {
    hide Or;
    OrBits(4 * q);
    OrBits(2 * q);
    OrBits(q);
  }

  lemma {:induction false} TableFlagBits(p: u32)
    requires p % 4096 == 0
    ensures Or(Or(Or(p, 1), 2), 4) == Entry(FrameOf(p), NEW_TABLE_FLAGS)
  {
    hide Or, Present, Writable;
    var q := FrameOf(p);
    assert p == 8 * (512 * q);
    OrSeven(512 * q);
  }

  lemma {:induction false} IndexBits(virt: u32)
    ensures And(Shr(virt, 22), 0x3FF) == (virt / 4096) / 1024
    ensures And(Shr(virt, 12), 0x3FF) == (virt / 4096) % 1024
    ensures And(virt, 0xFFF) == virt % 4096
  {
    assert Pow2(10) == 0x400 && Pow2(12) == 0x1000 && Pow2(22) == 0x40_0000 by {
      Pow2Values();
    }
    hide And, Shr;
    ShrIsDiv(virt, 22);
    ShrIsDiv(virt, 12);
    var page := virt / 4096;
    AndIsLowBits(page / 1024, 10);
    AndIsLowBits(page, 10);
    AndIsLowBits(virt, 12);
    DivModUnique(virt, 0x40_0000, page / 1024, (page % 1024) * 4096 + virt % 4096);
    DivModUnique(page / 1024, 1024, 0, page / 1024);
  }

  datatype Mapping = Mapping(frame: nat, flags: nat)

  /** The table frame behind directory slot i. */
  function TableAt(m: seq<Frame>, dir: nat, i: nat): nat
    requires dir < |m| && i < WORDS
  {
    FrameOf(m[dir][i])
  }

  /** Cell j of the table in slot i; 0 when the table is missing. */
  function Cell(m: seq<Frame>, dir: nat, i: nat, j: nat): u32
    requires dir < |m| && i < WORDS && j < WORDS
  {
    if Present(m[dir][i]) && TableAt(m, dir, i) < |m| then m[TableAt(m, dir, i)][j] else 0
  }

  /** The entry that translates `page`. */
  function EntryAt(m: seq<Frame>, dir: nat, page: nat): u32
    requires dir < |m| && page < PAGES
  {
    Cell(m, dir, page / 1024, page % 1024)
  }

  /** The partial map from pages to frames that a directory denotes. */
  function View(m: seq<Frame>, dir: nat): map<nat, Mapping>
    requires dir < |m|
  {
    map p: nat | p < PAGES && Present(EntryAt(m, dir, p)) ::
      Mapping(FrameOf(EntryAt(m, dir, p)), FlagsOf(EntryAt(m, dir, p)))
  }

  ghost predicate TableOk(s: Machine, dir: nat, i: nat)
    requires dir < |s.m| == |s.v| && i < WORDS
  {
    Present(s.m[dir][i]) ==>
      var t := TableAt(s.m, dir, i); 0 < t < |s.m| && s.v[t] && t != dir
  }

  ghost predicate TablesDistinct(s: Machine, dir: nat)
    requires dir < |s.m|
  {
    forall i, j | 0 <= i < j < WORDS && Present(s.m[dir][i]) && Present(s.m[dir][j]) ::
      TableAt(s.m, dir, i) != TableAt(s.m, dir, j)
  }

  /** The directory and its tables are distinct frames, all marked used. */
  ghost predicate WellFormed(s: Machine, dir: nat) {
    && |s.m| == |s.v| <= PAGES
    && 0 < dir < |s.m| && s.v[0] && s.v[dir]
    && (forall i | 0 <= i < WORDS :: TableOk(s, dir, i))
    && TablesDistinct(s, dir)
  }

  /** An entry stored in one slot of a table frame. */
  function SetEntry(m: seq<Frame>, t: nat, j: nat, e: u32): seq<Frame>
    requires t < |m| && j < WORDS
  {
    m[t := m[t][j := e]]
  }

  /** vmm_get_page_table with `allocate`: an absent table is taken from the first free frame,
      cleared and hooked into the directory. */
  function WithTable(s: Machine, dir: nat, i: nat): Machine
    requires dir < |s.m| == |s.v| <= PAGES && i < WORDS
  {
    var t := Search(s.v, 1, 0);
    if Present(s.m[dir][i]) || t == -1 then s
    else Machine(SetEntry(s.m[t := Zeroed()], dir, i, Entry(t, NEW_TABLE_FLAGS)), s.v[t := true])
  }

  /** vmm_map_page and its success flag. */
  function MapPage(s: Machine, dir: nat, page: nat, e: u32): Outcome
    requires WellFormed(s, dir) && page < PAGES
  {
    var s' := WithTable(s, dir, page / 1024);
    if Present(s'.m[dir][page / 1024]) && TableAt(s'.m, dir, page / 1024) < |s'.m|
    then Outcome(Machine(SetEntry(s'.m, TableAt(s'.m, dir, page / 1024), page % 1024, e), s'.v), true)
    else Outcome(s', false)
  }

  /** vmm_unmap_page and its success flag. */
  function UnmapPage(s: Machine, dir: nat, page: nat): Outcome
    requires WellFormed(s, dir) && page < PAGES
  {
    assert TableOk(s, dir, page / 1024);
    if Present(s.m[dir][page / 1024])
    then Outcome(Machine(SetEntry(s.m, TableAt(s.m, dir, page / 1024), page % 1024, 0), s.v), true)
    else Outcome(s, false)
  }

  /** The effect of storing entry e for a page on the denoted map. */
  function Bind(f: map<nat, Mapping>, page: nat, e: u32): map<nat, Mapping> {
    if Present(e) then f[page := Mapping(FrameOf(e), FlagsOf(e))] else f - {page}
  }

  predicate SameFrame(m: seq<Frame>, m': seq<Frame>, f: nat) {
    f < |m| && f < |m'| && m[f] == m'[f]
  }

  /** Two memories that agree on a directory and its tables denote the same map. */
  lemma {:induction false} ViewLocal(s: Machine, m': seq<Frame>, dir: nat)
    requires WellFormed(s, dir) && |m'| == |s.m|
    requires m'[dir] == s.m[dir]
    requires forall i | 0 <= i < WORDS && Present(s.m[dir][i]) :: SameFrame(s.m, m', TableAt(s.m, dir, i))
    ensures View(m', dir) == View(s.m, dir)
  {
    forall p: nat | p < PAGES
      ensures EntryAt(m', dir, p) == EntryAt(s.m, dir, p)
    {
      assert TableOk(s, dir, p / 1024);
    }
  }

  lemma {:induction false} WithTableKeeps(s: Machine, dir: nat, i: nat)
    requires WellFormed(s, dir) && i < WORDS
    ensures WellFormed(WithTable(s, dir, i), dir)
    ensures View(WithTable(s, dir, i).m, dir) == View(s.m, dir)
    ensures Present(WithTable(s, dir, i).m[dir][i]) <==> Present(s.m[dir][i]) || exists t :: FreeRun(s.v, t, 1)
  {
    var t := Search(s.v, 1, 0);
    var s' := WithTable(s, dir, i);
    if !Present(s.m[dir][i]) && t != -1 {
      assert FreeRun(s.v, t, 1) && !s.v[t];
      forall k | 0 <= k < WORDS
        ensures TableOk(s', dir, k)
        ensures s'.m[dir][k] == if k == i then Entry(t, NEW_TABLE_FLAGS) else s.m[dir][k]
        ensures k != i && Present(s'.m[dir][k]) ==> TableAt(s'.m, dir, k) != t
      {
        assert TableOk(s, dir, k);
      }
      forall p: nat | p < PAGES
        ensures EntryAt(s'.m, dir, p) == EntryAt(s.m, dir, p)
      {
        assert TableOk(s, dir, p / 1024);
      }
    }
  }

  /** The three cases of vmm_get_page_table. */
  lemma {:induction false} WithTableCases(s: Machine, dir: nat, i: nat)
    requires WellFormed(s, dir) && i < WORDS
    ensures 0 < dir < |s.m| == |s.v| <= PAGES
    ensures Present(s.m[dir][i]) ==> WithTable(s, dir, i) == s && 0 < TableAt(s.m, dir, i) < |s.m|
    ensures !Present(s.m[dir][i]) && Search(s.v, 1, 0) == -1 ==> WithTable(s, dir, i) == s
    ensures !Present(s.m[dir][i]) && Search(s.v, 1, 0) != -1 ==>
      var t := Search(s.v, 1, 0);
      && 0 < t < |s.m|
      && WithTable(s, dir, i)
         == Machine(SetEntry(s.m[t := Zeroed()], dir, i, Entry(t, NEW_TABLE_FLAGS)), s.v[t := true])
      && WithTable(s, dir, i).m[dir][i] == Entry(t, NEW_TABLE_FLAGS) && Present(Entry(t, NEW_TABLE_FLAGS))
  {
    assert TableOk(s, dir, i);
    if Search(s.v, 1, 0) != -1 {
      assert FreeRun(s.v, Search(s.v, 1, 0), 1);
    }
  }

  /** Storing one entry of a present table rebinds exactly one page. */
  lemma {:induction false} SetEntryBinds(s: Machine, dir: nat, page: nat, e: u32)
    requires WellFormed(s, dir) && page < PAGES && Present(s.m[dir][page / 1024])
    ensures var t := TableAt(s.m, dir, page / 1024);
      t < |s.m|
      && WellFormed(s.(m := SetEntry(s.m, t, page % 1024, e)), dir)
      && View(SetEntry(s.m, t, page % 1024, e), dir) == Bind(View(s.m, dir), page, e)
  {
    assert TableOk(s, dir, page / 1024);
    var t := TableAt(s.m, dir, page / 1024);
    var m' := SetEntry(s.m, t, page % 1024, e);
    assert m'[dir] == s.m[dir];
    forall k | 0 <= k < WORDS
      ensures TableOk(s.(m := m'), dir, k)
    {
      assert TableOk(s, dir, k);
    }
    forall p: nat | p < PAGES
      ensures EntryAt(m', dir, p) == if p == page then e else EntryAt(s.m, dir, p)
    {
      assert TableOk(s, dir, p / 1024);
      if p / 1024 != page / 1024 && Present(s.m[dir][p / 1024]) {
        DistinctTables(s, dir, p / 1024, page / 1024);
      } else if p / 1024 == page / 1024 && p != page {
        assert p % 1024 != page % 1024;
      }
    }
  }

  lemma {:induction false} DistinctTables(s: Machine, dir: nat, i: nat, j: nat)
    requires WellFormed(s, dir) && i < WORDS && j < WORDS && i != j
    requires Present(s.m[dir][i]) && Present(s.m[dir][j])
    ensures TableAt(s.m, dir, i) != TableAt(s.m, dir, j)
  {}

  /** vmm_map_page succeeds unless a table is missing and memory is exhausted; success binds
      exactly one page and failure changes nothing. */
  lemma {:induction false} MapPageRefines(s: Machine, dir: nat, page: nat, e: u32)
    requires WellFormed(s, dir) && page < PAGES
    ensures var Outcome(s', ok) := MapPage(s, dir, page, e);
      && WellFormed(s', dir)
      && (ok <==> Present(s.m[dir][page / 1024]) || exists t :: FreeRun(s.v, t, 1))
      && View(s'.m, dir) == (if ok then Bind(View(s.m, dir), page, e) else View(s.m, dir))
      && (!ok ==> s' == s)
  {
    WithTableKeeps(s, dir, page / 1024);
    var s1 := WithTable(s, dir, page / 1024);
    assert TableOk(s1, dir, page / 1024);
    if Present(s1.m[dir][page / 1024]) {
      SetEntryBinds(s1, dir, page, e);
    }
  }

  /** The same call in terms of the table it writes. */
  lemma {:induction false} MapPageByTable(s: Machine, dir: nat, page: nat, e: u32)
    requires WellFormed(s, dir) && page < PAGES
    ensures var s1 := WithTable(s, dir, page / 1024);
      && WellFormed(s1, dir) && |s1.m| == |s.m| && dir < |s.m|
      && (if Present(s1.m[dir][page / 1024])
          then TableAt(s1.m, dir, page / 1024) < |s1.m|
            && MapPage(s, dir, page, e)
               == Outcome(Machine(SetEntry(s1.m, TableAt(s1.m, dir, page / 1024), page % 1024, e), s1.v), true)
          else MapPage(s, dir, page, e) == Outcome(s1, false))
  {
    WithTableKeeps(s, dir, page / 1024);
    assert TableOk(WithTable(s, dir, page / 1024), dir, page / 1024);
  }

  lemma {:induction false} UnmapPageByTable(s: Machine, dir: nat, page: nat)
    requires WellFormed(s, dir) && page < PAGES
    ensures dir < |s.m|
    ensures if Present(s.m[dir][page / 1024])
      then TableAt(s.m, dir, page / 1024) < |s.m|
        && UnmapPage(s, dir, page)
           == Outcome(Machine(SetEntry(s.m, TableAt(s.m, dir, page / 1024), page % 1024, 0), s.v), true)
      else UnmapPage(s, dir, page) == Outcome(s, false)
  {
    assert TableOk(s, dir, page / 1024);
  }

  lemma {:induction false} UnmapPageRefines(s: Machine, dir: nat, page: nat)
    requires WellFormed(s, dir) && page < PAGES
    ensures var Outcome(s', ok) := UnmapPage(s, dir, page);
      && WellFormed(s', dir) && s'.v == s.v
      && View(s'.m, dir) == View(s.m, dir) - {page}
      && (page in View(s.m, dir) ==> ok)
  {
    if Present(s.m[dir][page / 1024]) {
      SetEntryBinds(s, dir, page, 0);
    } else {
      assert EntryAt(s.m, dir, page) == 0;
    }
  }

  /** vmm_get_mapping: the physical address behind a virtual one. */
  function Translate(m: seq<Frame>, dir: nat, virt: u32): (bool, u32)
    requires dir < |m|
  {
    var e := EntryAt(m, dir, virt / 4096);
    if Present(e) then (true, FrameOf(e) * 4096 + virt % 4096) else (false, 0)
  }

  datatype Call = Map(phys: u32, virt: u32, flags: u32) | Unmap(virt: u32)

  function Step(s: Machine, dir: nat, c: Call): Outcome
    requires WellFormed(s, dir)
  {
    match c
    case Map(phys, virt, flags) => MapPage(s, dir, virt / 4096, MapEntry(phys, flags))
    case Unmap(virt) => UnmapPage(s, dir, virt / 4096)
  }

  lemma {:induction false} StepKeeps(s: Machine, dir: nat, c: Call)
    requires WellFormed(s, dir)
    ensures WellFormed(Step(s, dir, c).s, dir)
  {
    match c
    case Map(phys, virt, flags) => MapPageRefines(s, dir, virt / 4096, MapEntry(phys, flags));
    case Unmap(virt) => UnmapPageRefines(s, dir, virt / 4096);
  }

  /** The state after a run of calls and the success flag of each one. */
  datatype History = History(s: Machine, oks: seq<bool>)

  ghost function Run(s: Machine, dir: nat, calls: seq<Call>): (h: History)
    requires WellFormed(s, dir)
    ensures WellFormed(h.s, dir) && |h.oks| == |calls|
  {
    if calls == [] then History(s, [])
    else
      var before := Run(s, dir, calls[..|calls| - 1]);
      StepKeeps(before.s, dir, calls[|calls| - 1]);
      var after := Step(before.s, dir, calls[|calls| - 1]);
      History(after.s, before.oks + [after.ok])
  }

  /** The same calls on an ordinary finite map. */
  function MapRun(f: map<nat, Mapping>, calls: seq<Call>, oks: seq<bool>): map<nat, Mapping>
    requires |calls| == |oks|
  {
    if calls == [] then f
    else
      var n := |calls| - 1;
      var g := MapRun(f, calls[..n], oks[..n]);
      match calls[n]
      case Map(phys, virt, flags) =>
        if oks[n] then Bind(g, virt / 4096, MapEntry(phys, flags)) else g
      case Unmap(virt) => g - {virt / 4096}
  }

  /** Every run of map and unmap calls on the frames is a run on the finite map. */
  lemma {:induction false} RunRefines(s: Machine, dir: nat, calls: seq<Call>)
    requires WellFormed(s, dir)
    ensures View(Run(s, dir, calls).s.m, dir) == MapRun(View(s.m, dir), calls, Run(s, dir, calls).oks)
  {
    if calls != [] {
      var n := |calls| - 1;
      RunRefines(s, dir, calls[..n]);
      var before := Run(s, dir, calls[..n]);
      assert Run(s, dir, calls).oks[..n] == before.oks;
      match calls[n]
      case Map(phys, virt, flags) => MapPageRefines(before.s, dir, virt / 4096, MapEntry(phys, flags));
      case Unmap(virt) => UnmapPageRefines(before.s, dir, virt / 4096);
    }
  }

  /** vmm_get_mapping answers exactly for the bound pages, with frame plus offset. */
  lemma {:induction false} TranslateIsView(s: Machine, dir: nat, virt: u32)
    requires WellFormed(s, dir)
    ensures Translate(s.m, dir, virt).0 <==> virt / 4096 in View(s.m, dir)
    ensures virt / 4096 in View(s.m, dir) ==>
      Translate(s.m, dir, virt).1 == View(s.m, dir)[virt / 4096].frame * 4096 + virt % 4096
  {}

  /** f is the table of one of the first n slots. */
  ghost predicate IsTable(m: seq<Frame>, dir: nat, n: nat, f: nat)
    requires dir < |m|
  {
    exists i :: 0 <= i < n && i < WORDS && Present(m[dir][i]) && TableAt(m, dir, i) == f
  }

  lemma {:induction false} TablesUpTo(s: Machine, dir: nat, i: nat)
    requires WellFormed(s, dir) && i < WORDS
    ensures forall f :: IsTable(s.m, dir, i + 1, f) <==>
      IsTable(s.m, dir, i, f) || (Present(s.m[dir][i]) && f == TableAt(s.m, dir, i))
    ensures Present(s.m[dir][i]) ==>
      0 < TableAt(s.m, dir, i) < |s.m| && s.v[TableAt(s.m, dir, i)] && !IsTable(s.m, dir, i, TableAt(s.m, dir, i))
  {
    assert TableOk(s, dir, i);
  }

  lemma {:induction false} DirectoryIsNoTable(s: Machine, dir: nat)
    requires WellFormed(s, dir)
    ensures !IsTable(s.m, dir, WORDS, dir)
  {
    forall i | 0 <= i < WORDS && Present(s.m[dir][i])
      ensures TableAt(s.m, dir, i) != dir
    {
      assert TableOk(s, dir, i);
    }
  }

  lemma {:induction false} WellFormedBounds(s: Machine, dir: nat)
    requires WellFormed(s, dir)
    ensures 0 < dir < |s.m| == |s.v| && s.v[dir]
  {}

  /** One iteration of the loop that frees the tables of a directory. */
  lemma {:induction false} FreeTableStep(s: Machine, dir: nat, i: nat, v: Bitmap, v': Bitmap)
    requires WellFormed(s, dir) && i < WORDS && |v| == |v'| == |s.v|
    requires FreedTables(s, dir, i, v) && (Present(s.m[dir][i]) ==> TableAt(s.m, dir, i) < |v|)
    requires v' == if Present(s.m[dir][i]) then v[TableAt(s.m, dir, i) := false] else v
    ensures FreedTables(s, dir, i + 1, v')
  {
    TablesUpTo(s, dir, i);
  }

  /** v is the bitmap of s once the tables of the first n slots are free. */
  ghost predicate FreedTables(s: Machine, dir: nat, n: nat, v: Bitmap)
    requires dir < |s.m|
  {
    |v| == |s.v| && forall f | 0 <= f < |v| :: v[f] <==> s.v[f] && !IsTable(s.m, dir, n, f)
  }

  lemma {:induction false} FreedNone(s: Machine, dir: nat)
    requires WellFormed(s, dir)
    ensures FreedTables(s, dir, 0, s.v)
  {}

  lemma {:induction false} FreeableTable(s: Machine, dir: nat, i: nat, v: Bitmap)
    requires WellFormed(s, dir) && i < WORDS && FreedTables(s, dir, i, v)
    ensures |v| == |s.v|
    ensures Present(s.m[dir][i]) ==> 0 < TableAt(s.m, dir, i) < |v| && v[TableAt(s.m, dir, i)]
  {
    TablesUpTo(s, dir, i);
  }

  lemma {:induction false} FreedAll(s: Machine, dir: nat, v: Bitmap)
    requires WellFormed(s, dir) && FreedTables(s, dir, WORDS, v)
    ensures |v| == |s.v| && v[dir]
    ensures forall f | 0 <= f < |v| :: v[f] <==> s.v[f] && !IsTable(s.m, dir, WORDS, f)
  {
    DirectoryIsNoTable(s, dir);
  }
}
