/** Directories side by side after vmm_clone_directory (mem/vmm.c): which map and unmap calls are
    seen through which directory, over whole runs. */
module CloneIsolation {
  import opened Bits
  import opened Bitmaps
  import opened PageTables
  import opened Clone

  /** Slot i of both directories holds the same entry of an existing kernel table. */
  predicate Shares(m: seq<Frame>, a: nat, b: nat, i: nat)
    requires a < |m| && b < |m| && i < WORDS
  {
    i >= KERNEL && Present(m[a][i]) && m[a][i] == m[b][i]
  }

  /** A table of a and a table of b are different frames unless they are one shared slot. */
  predicate SlotsApart(m: seq<Frame>, a: nat, b: nat, i: nat, j: nat)
    requires a < |m| && b < |m| && i < WORDS && j < WORDS
  {
    Present(m[a][i]) && Present(m[b][j]) && TableAt(m, a, i) == TableAt(m, b, j) ==> i == j && Shares(m, a, b, i)
  }

  /** No table of a is the directory b. */
  predicate AvoidsDirectory(m: seq<Frame>, a: nat, b: nat, i: nat)
    requires a < |m| && i < WORDS
  {
    Present(m[a][i]) ==> TableAt(m, a, i) != b
  }

  /** Two well-formed directories that have in common at most kernel tables, each in one slot. */
  ghost predicate Apart(s: Machine, a: nat, b: nat) {
    && WellFormed(s, a) && WellFormed(s, b) && a != b
    && (forall i | 0 <= i < WORDS :: AvoidsDirectory(s.m, a, b, i))
    && (forall i | 0 <= i < WORDS :: AvoidsDirectory(s.m, b, a, i))
    && (forall i, j | 0 <= i < WORDS && 0 <= j < WORDS :: SlotsApart(s.m, a, b, i, j))
  }

  lemma {:induction false} ApartSym(s: Machine, a: nat, b: nat)
    requires Apart(s, a, b)
    ensures Apart(s, b, a)
  {
    forall i, j | 0 <= i < WORDS && 0 <= j < WORDS
      ensures SlotsApart(s.m, b, a, i, j)
    {
      assert SlotsApart(s.m, a, b, j, i);
    }
  }

  /** A finished clone lies apart from its source. */
  lemma {:induction false} CloneIsApart(s0: Machine, s: Machine, src: nat, dest: nat)
    requires IsClone(s0, s, src, dest)
    ensures Apart(s, src, dest)
    ensures forall i | KERNEL <= i < WORDS && Present(s.m[src][i]) :: Shares(s.m, src, dest, i)
  {
    hide View, Cell, TablesDistinct;
    SourceUnchanged(s0, s, src);
    forall i | 0 <= i < WORDS
      ensures AvoidsDirectory(s.m, src, dest, i) && AvoidsDirectory(s.m, dest, src, i)
      ensures i >= KERNEL && Present(s.m[src][i]) ==> Shares(s.m, src, dest, i)
    {
      assert SlotCloned(s0, s, src, dest, i) && TableOk(s0, src, i);
    }
    forall i, j | 0 <= i < WORDS && 0 <= j < WORDS
      ensures SlotsApart(s.m, src, dest, i, j)
    {
      CloneSlotsApart(s0, s, src, dest, i, j);
    }
  }

  lemma {:induction false} CloneSlotsApart(s0: Machine, s: Machine, src: nat, dest: nat, i: nat, j: nat)
    requires IsClone(s0, s, src, dest) && s.m[src] == s0.m[src] && i < WORDS && j < WORDS
    ensures SlotsApart(s.m, src, dest, i, j)
  {
    hide View, Cell;
    assert SlotCloned(s0, s, src, dest, j);
    assert TableOk(s0, src, i) && TableOk(s0, src, j);
    if j >= KERNEL && i != j && Present(s0.m[src][i]) && Present(s0.m[src][j]) {
      DistinctTables(s0, src, i, j);
    }
  }

  // ---------------------------------------------------------------- one call

  /** What a call leaves alone: every used frame but its directory (when a table is added) and the
      table of its page; the bitmap only grows. */
  ghost predicate Confined(s: Machine, s': Machine, dir: nat, slot: nat)
    requires dir < |s.m| && slot < WORDS
  {
    && |s'.m| == |s.m| && |s'.v| == |s.v| == |s.m|
    && (forall f | 0 <= f < |s.v| && s.v[f] :: s'.v[f])
    && (forall f | 0 <= f < |s.v| && s.v[f] && f != dir && !(Present(s.m[dir][slot]) && f == TableAt(s.m, dir, slot)) ::
         s'.m[f] == s.m[f])
  }

  /** The directory keeps its entries, except that an absent one may become a table of a frame
      that was free. */
  ghost predicate SlotGrows(s: Machine, s': Machine, dir: nat, slot: nat)
    requires dir < |s.m| && slot < WORDS
  {
    && dir < |s'.m|
    && (forall i | 0 <= i < WORDS && i != slot :: s'.m[dir][i] == s.m[dir][i])
    && (Present(s.m[dir][slot]) ==> s'.m[dir][slot] == s.m[dir][slot])
    && (!Present(s.m[dir][slot]) && Present(s'.m[dir][slot]) ==>
        TableAt(s'.m, dir, slot) < |s.v| && !s.v[TableAt(s'.m, dir, slot)])
  }

  function PageOf(c: Call): (p: nat)
    ensures p < PAGES
  {
    match c
    case Map(_, virt, _) => virt / 4096
    case Unmap(virt) => virt / 4096
  }

  /** The call on an ordinary finite map, when it succeeds. */
  function Applied(f: map<nat, Mapping>, c: Call): map<nat, Mapping> {
    match c
    case Map(phys, virt, flags) => Bind(f, virt / 4096, MapEntry(phys, flags))
    case Unmap(virt) => f - {virt / 4096}
  }

  lemma {:induction false} MapConfined(s: Machine, dir: nat, page: nat, e: u32)
    requires WellFormed(s, dir) && page < PAGES
    ensures var s' := MapPage(s, dir, page, e).s;
      dir < |s.m| && Confined(s, s', dir, page / 1024) && SlotGrows(s, s', dir, page / 1024)
  {
    hide View, TablesDistinct, Search;
    WithTableCases(s, dir, page / 1024);
    MapPageByTable(s, dir, page, e);
    SearchOne(s.v);
    if Present(s.m[dir][page / 1024]) {
      assert TableOk(s, dir, page / 1024);
    }
  }

  lemma {:induction false} UnmapConfined(s: Machine, dir: nat, page: nat)
    requires WellFormed(s, dir) && page < PAGES
    ensures var s' := UnmapPage(s, dir, page).s;
      dir < |s.m| && Confined(s, s', dir, page / 1024) && SlotGrows(s, s', dir, page / 1024)
  {
    hide View, TablesDistinct;
    UnmapPageByTable(s, dir, page);
    assert TableOk(s, dir, page / 1024);
  }

  /** One call: confined, and exactly its page of its directory's map changes. */
  lemma {:induction false} StepFacts(s: Machine, dir: nat, c: Call)
    requires WellFormed(s, dir)
    ensures var Outcome(s', ok) := Step(s, dir, c);
      && dir < |s.m| && Confined(s, s', dir, PageOf(c) / 1024) && SlotGrows(s, s', dir, PageOf(c) / 1024)
      && WellFormed(s', dir)
      && View(s'.m, dir) == if ok then Applied(View(s.m, dir), c) else View(s.m, dir)
  {
    hide View, WellFormed, MapPage, UnmapPage, Confined, SlotGrows, Bind;
    match c
    case Map(phys, virt, flags) =>
      MapConfined(s, dir, virt / 4096, MapEntry(phys, flags));
      MapPageRefines(s, dir, virt / 4096, MapEntry(phys, flags));
    case Unmap(virt) =>
      UnmapConfined(s, dir, virt / 4096);
      UnmapPageRefines(s, dir, virt / 4096);
  }

  // ---------------------------------------------------------------- effect on another directory

  /** The frames of directory b survive a call through a, but for the table of a shared slot. */
  lemma {:induction false} OtherFrames(s: Machine, s': Machine, a: nat, b: nat, slot: nat)
    requires Apart(s, a, b) && slot < WORDS && Confined(s, s', a, slot)
    ensures |s'.v| == |s.m| && b < |s.m| == |s'.m| && s'.m[b] == s.m[b] && s'.v[b] && s'.v[0]
    ensures forall j | 0 <= j < WORDS && Present(s.m[b][j]) ::
      TableAt(s.m, b, j) < |s.m| && s'.v[TableAt(s.m, b, j)]
      && (!(j == slot && Shares(s.m, a, b, slot)) ==> SameFrame(s.m, s'.m, TableAt(s.m, b, j)))
  {
    hide View, TablesDistinct;
    assert AvoidsDirectory(s.m, a, b, slot);
    forall j | 0 <= j < WORDS && Present(s.m[b][j])
      ensures TableAt(s.m, b, j) < |s.m| && s'.v[TableAt(s.m, b, j)]
      ensures !(j == slot && Shares(s.m, a, b, slot)) ==> SameFrame(s.m, s'.m, TableAt(s.m, b, j))
    {
      assert TableOk(s, b, j) && AvoidsDirectory(s.m, b, a, j) && SlotsApart(s.m, a, b, slot, j);
    }
  }

  /** The two directories translate the page through one table. */
  predicate SharesPage(m: seq<Frame>, a: nat, b: nat, page: nat)
    requires a < |m| && b < |m| && page < PAGES
  {
    Shares(m, a, b, page / 1024)
  }

  /** A call through a on a page whose table is not shared is invisible through b. */
  lemma {:induction false} PrivateStep(s: Machine, a: nat, b: nat, c: Call)
    requires Apart(s, a, b) && !SharesPage(s.m, a, b, PageOf(c))
    ensures WellFormed(Step(s, a, c).s, b) && View(Step(s, a, c).s.m, b) == View(s.m, b)
  {
    hide View, Confined, SlotGrows, Step, Shares, Apart, WellFormed;
    ApartParts(s, a, b);
    StepFacts(s, a, c);
    var s' := Step(s, a, c).s;
    OtherFrames(s, s', a, b, PageOf(c) / 1024);
    ViewLocal(s, s'.m, b);
    SameWellFormed(s, s', b);
  }

  lemma {:induction false} ApartParts(s: Machine, a: nat, b: nat)
    requires Apart(s, a, b)
    ensures WellFormed(s, a) && WellFormed(s, b) && a != b && a < |s.m| && b < |s.m|
  {}

  lemma {:induction false} SameWellFormed(s: Machine, s': Machine, b: nat)
    requires WellFormed(s, b) && |s'.m| == |s.m| == |s'.v| && s'.m[b] == s.m[b] && s'.v[b] && s'.v[0]
    requires forall j | 0 <= j < WORDS && Present(s.m[b][j]) :: TableAt(s.m, b, j) < |s.m| && s'.v[TableAt(s.m, b, j)]
    ensures WellFormed(s', b)
  {
    hide View;
    forall j | 0 <= j < WORDS
      ensures TableOk(s', b, j)
    {
      assert TableOk(s, b, j);
    }
  }

  /** A call through a shared table is the same call through the other directory. */
  lemma {:induction false} SharedStepSame(s: Machine, a: nat, b: nat, c: Call)
    requires Apart(s, a, b) && SharesPage(s.m, a, b, PageOf(c))
    ensures WellFormed(s, a) && WellFormed(s, b) && Step(s, a, c) == Step(s, b, c) && Step(s, a, c).ok
  {
    hide View, WellFormed, Apart, MapPage, UnmapPage, WithTable, SetEntry;
    ApartParts(s, a, b);
    var page := PageOf(c);
    match c
    case Map(phys, virt, flags) =>
      var e := MapEntry(phys, flags);
      WithTableCases(s, a, page / 1024);
      WithTableCases(s, b, page / 1024);
      MapPageByTable(s, a, page, e);
      MapPageByTable(s, b, page, e);
    case Unmap(virt) =>
      UnmapPageByTable(s, a, page);
      UnmapPageByTable(s, b, page);
  }

  /** What a call through a does to the map of b: the same change if they share the page's table,
      nothing otherwise. */
  lemma {:induction false} StepSeen(s: Machine, a: nat, b: nat, c: Call)
    requires Apart(s, a, b)
    ensures WellFormed(s, a) && WellFormed(Step(s, a, c).s, b) && b < |s.m| && a < |s.m|
    ensures View(Step(s, a, c).s.m, b) ==
            if SharesPage(s.m, a, b, PageOf(c)) then Applied(View(s.m, b), c) else View(s.m, b)
    ensures SharesPage(s.m, a, b, PageOf(c)) ==> Step(s, a, c).ok
  {
    hide View, Confined, SlotGrows, Step, Shares, Apart, WellFormed, Bind;
    ApartParts(s, a, b);
    if SharesPage(s.m, a, b, PageOf(c)) {
      SharedStepSame(s, a, b, c);
      StepFacts(s, b, c);
    } else {
      PrivateStep(s, a, b, c);
    }
  }

  // ---------------------------------------------------------------- staying apart

  /** Directories other than the caller's stay apart: their entries do not change. */
  lemma {:induction false} OthersStayApart(s: Machine, s': Machine, a: nat, b: nat)
    requires Apart(s, a, b) && WellFormed(s', a) && WellFormed(s', b) && |s'.m| == |s.m|
    requires s'.m[a] == s.m[a] && s'.m[b] == s.m[b]
    ensures Apart(s', a, b)
  {
    hide View, WellFormed;
    ApartParts(s, a, b);
    forall i, j | 0 <= i < WORDS && 0 <= j < WORDS
      ensures SlotsApart(s'.m, a, b, i, j)
    {
      assert SlotsApart(s.m, a, b, i, j);
    }
    forall i | 0 <= i < WORDS
      ensures AvoidsDirectory(s'.m, a, b, i) && AvoidsDirectory(s'.m, b, a, i)
    {
      assert AvoidsDirectory(s.m, a, b, i) && AvoidsDirectory(s.m, b, a, i);
    }
  }

  /** The caller's directory stays apart from any other: a new table was nobody's. */
  lemma {:induction false} CallerStaysApart(s: Machine, s': Machine, a: nat, b: nat, slot: nat)
    requires Apart(s, a, b) && WellFormed(s', a) && WellFormed(s', b) && slot < WORDS
    requires |s'.m| == |s.m| && s'.m[b] == s.m[b] && SlotGrows(s, s', a, slot)
    ensures Apart(s', a, b)
    ensures forall i | 0 <= i < WORDS :: Shares(s'.m, a, b, i) <==> Shares(s.m, a, b, i)
  {
    hide View, TablesDistinct;
    forall i, j | 0 <= i < WORDS && 0 <= j < WORDS
      ensures SlotsApart(s'.m, a, b, i, j)
    {
      assert SlotsApart(s.m, a, b, i, j) && TableOk(s, b, j);
    }
    forall i | 0 <= i < WORDS
      ensures AvoidsDirectory(s'.m, a, b, i) && AvoidsDirectory(s'.m, b, a, i)
      ensures Shares(s'.m, a, b, i) <==> Shares(s.m, a, b, i)
    {
      assert AvoidsDirectory(s.m, a, b, i) && AvoidsDirectory(s.m, b, a, i) && TableOk(s, b, i);
    }
  }
}
