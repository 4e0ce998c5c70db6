/** vmm_clone_directory (mem/vmm.c): the nested copy loops, on the frames themselves. */
module VmmClone {
  import opened Bits
  import opened Bitmaps
  import opened PageTables
  import opened Clone
  import opened CloneLeaks
  import opened Vmm
  import Pmm

  /** vmm_clone_directory. The copy reads each page through the current directory, so the
      source must be the current one. Ghost result: what each allocated frame was for. */
  method CloneDirectory(vm: PagedMemory, src: u32) returns (dest: u32, ghost owner: Owner)
    requires vm.Valid() && src % 4096 == 0 && vm.current == src
    requires WellFormed(vm.State(), src / 4096) && SourcesUsed(vm.State(), src / 4096)
    modifies vm.mem, vm.pmm.memoryMap, vm.pmm`used
    ensures vm.Valid()
    ensures dest != 0 ==> dest % 4096 == 0 && IsClone(old(vm.State()), vm.State(), src / 4096, dest / 4096)
    ensures dest != 0 <==> Count(old(vm.State().v)) + Cost(old(vm.State().m), src / 4096, WORDS) <= |vm.State().v|
    ensures dest != 0 ==> forall p :: OnPage(old(vm.State()), vm.State(), src / 4096, dest / 4096, p)
    ensures dest == 0 ==> Failed(old(vm.State()), vm.State(), src / 4096, owner)
    ensures dest == 0 ==> LeftBehind(old(vm.State()), vm.State(), src / 4096, owner)
    ensures View(vm.State().m, src / 4096) == old(View(vm.State().m, src / 4096))
  {
    hide Pmm.Unpack, Pmm.Allocator.View, PageTables.View, WellFormed, Progress, Search, WithTable, SourcesUsed, Count,
      IsClone, And, Failed,
      Copies, Allocs, Cost, LeftBehind;
    ghost var s0 := vm.State();
    ghost var sd := src / 4096;
    owner := map[];
    SearchOne(s0.v);
    dest := vm.CreateDirectory();
    WellFormedBounds(s0, sd);
    StartCount(s0.m, sd);
    if dest == 0 {
      NothingAllocated(s0, sd);
      LeaksExactly(s0, s0, sd, owner, 0);
      return;
    }
    var d := dest / 4096;
    owner := map[d := Directory];
    Start(s0, sd, d);
    NoCopyYet(d);
    var i := 0;
    while i < 1024
      invariant 0 <= i <= WORDS && vm.Valid() && Progress(s0, vm.State(), sd, d, owner, i, WORDS)
      invariant |owner| == Cost(s0.m, sd, i) && |Copies(owner)| == Count(Allocs(s0.m, sd, i))
    {
      var ok;
      ok, owner := CloneSlot(vm, src, dest, i, s0, owner);
      if !ok {
        LeaksExactly(s0, vm.State(), sd, owner, i + 1);
        dest := 0;
        return;
      }
      i := i + 1;
    }
    Finished(s0, vm.State(), sd, d, owner);
    forall p
      ensures OnPage(s0, vm.State(), sd, d, p)
    {
      CloneOnPage(s0, vm.State(), sd, d, p);
    }
    ProgressFacts(s0, vm.State(), sd, d, owner, WORDS, WORDS);
  }

  /** One directory slot: skipped when absent, copied for the kernel half, cloned below it. */
  method CloneSlot(vm: PagedMemory, src: u32, dest: u32, i: u32, ghost s0: Machine, ghost owner: Owner)
    returns (ok: bool, ghost owner': Owner)
    requires vm.Valid() && src % 4096 == 0 && dest % 4096 == 0 && vm.current == src
    requires i < WORDS && src / 4096 < |s0.m| == |s0.v| && SourcesUsed(s0, src / 4096)
    requires Progress(s0, vm.State(), src / 4096, dest / 4096, owner, i, WORDS)
    requires |owner| == Cost(s0.m, src / 4096, i) && |Copies(owner)| == Count(Allocs(s0.m, src / 4096, i))
    modifies vm.mem, vm.pmm.memoryMap, vm.pmm`used
    ensures vm.Valid() && |vm.State().v| == |s0.v|
    ensures ok ==> Progress(s0, vm.State(), src / 4096, dest / 4096, owner', i + 1, WORDS)
    ensures ok ==> |owner'| == Cost(s0.m, src / 4096, i + 1)
    ensures ok ==> |Copies(owner')| == Count(Allocs(s0.m, src / 4096, i + 1))
    ensures !ok ==> Failed(s0, vm.State(), src / 4096, owner')
    ensures !ok ==> Count(s0.v) + |owner'| == |s0.v| && |owner'| < Cost(s0.m, src / 4096, i + 1)
    ensures !ok ==> |Copies(owner')| == Count(Allocs(s0.m, src / 4096, i + 1)[..|owner'|])
  {
    hide Pmm.Unpack, Pmm.Allocator.View, PageTables.View, WellFormed, Progress, SourcesUsed, Count, And, Failed, Copies,
      Allocs, Cost;
    ghost var sd, d := src / 4096, dest / 4096;
    owner' := owner;
    ok := true;
    ProgressFacts(s0, vm.State(), sd, d, owner, i, WORDS);
    EntryBits(vm.mem[src / 4096][i]);
    SlotAllocsCount(s0.m, sd, i);
    if And(vm.mem[src / 4096][i], 1) != 0 {
      if i >= 768 {
        KernelSlot(s0, vm.State(), sd, d, owner, i);
        vm.StoreCell(dest / 4096, i, vm.mem[src / 4096][i]);
      } else {
        ok, owner' := CloneTable(vm, src, dest, i, s0, owner);
        if !ok {
          SlotPrefix(s0.m, sd, i, |owner'| - |owner|);
        }
      }
    } else {
      SkipSlot(s0, vm.State(), sd, d, owner, i);
    }
  }

  /** The failure path: the unfinished directory and its tables go back to the allocator. */
  method AbandonClone(vm: PagedMemory, src: u32, dest: u32, ghost n: nat, ghost jj: nat, ghost s0: Machine,
                      ghost owner: Owner)
    requires vm.Valid() && dest % 4096 == 0 && n <= KERNEL
    requires Progress(s0, vm.State(), src / 4096, dest / 4096, owner, n, jj)
    modifies vm.pmm.memoryMap, vm.pmm`used
    ensures vm.Valid() && |vm.State().v| == |s0.v| && Failed(s0, vm.State(), src / 4096, owner)
  {
    hide Pmm.Unpack, Pmm.Allocator.View, PageTables.View, WellFormed, Progress, Failed, IsTable;
    ghost var s := vm.State();
    ProgressFacts(s0, s, src / 4096, dest / 4096, owner, n, jj);
    vm.FreeDirectory(dest);
    FailedAfterFree(s0, s, src / 4096, dest / 4096, owner, n, jj, vm.State().v);
  }

  /** memcpy of one page from its virtual address in the current directory. */
  method CopyPage(vm: PagedMemory, page: u32, virt: u32)
    requires vm.Valid() && vm.current / 4096 < vm.mem.Length && page / 4096 < vm.mem.Length
    requires Translate(vm.State().m, vm.current / 4096, virt).1 / 4096 < vm.mem.Length
    modifies vm.mem
    ensures vm.mem[..] == old(vm.mem[..])[
      page / 4096 := old(vm.mem[Translate(vm.State().m, vm.current / 4096, virt).1 / 4096])]
  {
    hide Translate;
    var translated := Translate(vm.mem[..], vm.current / 4096, virt);
    vm.mem[page / 4096] := vm.mem[translated.1 / 4096];
  }

  /** One user slot of the clone: a new table, then its cells. */
  method CloneTable(vm: PagedMemory, src: u32, dest: u32, i: u32, ghost s0: Machine, ghost owner: Owner)
    returns (ok: bool, ghost owner': Owner)
    requires vm.Valid() && src % 4096 == 0 && dest % 4096 == 0 && vm.current == src
    requires i < KERNEL && src / 4096 < |s0.m| == |s0.v| && Present(s0.m[src / 4096][i]) && SourcesUsed(s0, src / 4096)
    requires Progress(s0, vm.State(), src / 4096, dest / 4096, owner, i, WORDS)
    modifies vm.mem, vm.pmm.memoryMap, vm.pmm`used
    ensures vm.Valid() && |vm.State().v| == |s0.v|
    ensures ok ==> Progress(s0, vm.State(), src / 4096, dest / 4096, owner', i + 1, WORDS)
    ensures ok ==> |owner'| == |owner| + SlotCost(s0.m, src / 4096, i)
    ensures !ok ==> Failed(s0, vm.State(), src / 4096, owner')
    ensures !ok ==> Count(s0.v) + |owner'| == |s0.v| && |owner| <= |owner'| < |owner| + SlotCost(s0.m, src / 4096, i)
    ensures |Copies(owner')| == |Copies(owner)| + (if |owner'| == |owner| then 0 else |owner'| - |owner| - 1)
  {
    hide Pmm.Unpack, Pmm.Allocator.View, PageTables.View, WellFormed, Progress, Search, WithTable, SourcesUsed, Count,
      Failed, And, Or, Shl32;
    ghost var sd, d := src / 4096, dest / 4096;
    ghost var s := vm.State();
    owner' := owner;
    ProgressFacts(s0, s, sd, d, owner, i, WORDS);
    CloneNeedsTable(s0, s, sd, d, owner, i);
    var table := vm.GetPageTable(dest, i, true);
    if table == 0 {
      AbandonClone(vm, src, dest, i, WORDS, s0, owner);
      return false, owner';
    }
    NewTable(s0, s, sd, d, owner, i, table / 4096);
    CopiesAfter(owner, table / 4096, Table(i));
    owner' := owner[table / 4096 := Table(i)];
    ProgressFacts(s0, vm.State(), sd, d, owner', i + 1, 0);
    var j := 0;
    while j < 1024
      invariant 0 <= j <= WORDS && vm.Valid() && Progress(s0, vm.State(), sd, d, owner', i + 1, j)
      invariant |owner'| == |owner| + 1 + CellCost(s0.m, sd, i, j)
      invariant |Copies(owner')| == |Copies(owner)| + CellCost(s0.m, sd, i, j)
    {
      ok, owner' := CloneCell(vm, src, dest, i, j, s0, owner');
      if !ok {
        CellCostGrows(s0.m, sd, i, j + 1, WORDS);
        return;
      }
      j := j + 1;
    }
    ok := true;
    ProgressFacts(s0, vm.State(), sd, d, owner', i + 1, WORDS);
  }

  /** One cell of the clone: skipped when absent, shared when read-only, copied when writable. */
  method CloneCell(vm: PagedMemory, src: u32, dest: u32, i: u32, j: u32, ghost s0: Machine, ghost owner: Owner)
    returns (ok: bool, ghost owner': Owner)
    requires vm.Valid() && src % 4096 == 0 && dest % 4096 == 0 && vm.current == src
    requires i < KERNEL && j < WORDS && src / 4096 < |s0.m| == |s0.v| && Present(s0.m[src / 4096][i])
    requires SourcesUsed(s0, src / 4096)
    requires Progress(s0, vm.State(), src / 4096, dest / 4096, owner, i + 1, j)
    modifies vm.mem, vm.pmm.memoryMap, vm.pmm`used
    ensures vm.Valid() && |vm.State().v| == |s0.v|
    ensures ok ==> Progress(s0, vm.State(), src / 4096, dest / 4096, owner', i + 1, j + 1)
    ensures ok ==> |owner'| == |owner| + (if IsCopied(Cell(s0.m, src / 4096, i, j)) then 1 else 0)
    ensures |Copies(owner')| - |Copies(owner)| == |owner'| - |owner|
    ensures !ok ==> Failed(s0, vm.State(), src / 4096, owner') && IsCopied(Cell(s0.m, src / 4096, i, j))
    ensures !ok ==> Count(s0.v) + |owner'| == |s0.v| && owner' == owner
  {
    hide Pmm.Unpack, Pmm.Allocator.View, PageTables.View, WellFormed, Progress, Search, SourcesUsed, Count, Failed,
      And, Or, Shl32, Translate;
    ghost var sd, d := src / 4096, dest / 4096;
    ghost var s := vm.State();
    owner' := owner;
    ok := true;
    ProgressFacts(s0, s, sd, d, owner, i + 1, j);
    CellFacts(s0, s, sd, d, owner, i, j);
    EntryBits(vm.mem[src / 4096][i]);
    EntryBits(vm.mem[dest / 4096][i]);
    var srcTable := And(vm.mem[src / 4096][i], Not32(0xFFF)) / 4096;
    var destTable := And(vm.mem[dest / 4096][i], Not32(0xFFF)) / 4096;
    var e := vm.mem[srcTable][j];
    EntryBits(e);
    if And(e, 1) == 0 {
      SkipCell(s0, s, sd, d, owner, i, j);
    } else if And(e, 2) == 0 {
      ShareCell(s0, s, sd, d, owner, i, j);
      vm.StoreCell(destTable, j, e);
    } else {
      ok, owner' := CloneWritable(vm, src, dest, destTable, i, j, e, s0, owner);
    }
  }

  method CloneWritable(vm: PagedMemory, src: u32, dest: u32, destTable: nat, i: u32, j: u32, e: u32,
                       ghost s0: Machine, ghost owner: Owner)
    returns (ok: bool, ghost owner': Owner)
    requires vm.Valid() && src % 4096 == 0 && dest % 4096 == 0 && vm.current == src
    requires i < KERNEL && j < WORDS && src / 4096 < |s0.m| == |s0.v| && Present(s0.m[src / 4096][i])
    requires SourcesUsed(s0, src / 4096) && e == Cell(s0.m, src / 4096, i, j) && IsCopied(e)
    requires Progress(s0, vm.State(), src / 4096, dest / 4096, owner, i + 1, j)
    requires dest / 4096 < vm.mem.Length && destTable == TableAt(vm.State().m, dest / 4096, i)
    modifies vm.mem, vm.pmm.memoryMap, vm.pmm`used
    ensures vm.Valid() && |vm.State().v| == |s0.v|
    ensures ok ==> Progress(s0, vm.State(), src / 4096, dest / 4096, owner', i + 1, j + 1)
    ensures ok ==> |owner'| == |owner| + 1 && |Copies(owner')| == |Copies(owner)| + 1
    ensures !ok ==> Failed(s0, vm.State(), src / 4096, owner') && Count(s0.v) + |owner'| == |s0.v| && owner' == owner
  {
    hide Pmm.Unpack, Pmm.Allocator.View, PageTables.View, WellFormed, Progress, Search, SourcesUsed, Count, Failed, And,
      Or, Shl32, Translate, Cell, Entry, Copies;
    ghost var sd, d := src / 4096, dest / 4096;
    ghost var s := vm.State();
    owner' := owner;
    ProgressFacts(s0, s, sd, d, owner, i + 1, j);
    CellFacts(s0, s, sd, d, owner, i, j);
    SearchOne(s.v);
    var page := vm.pmm.AllocBlock();
    if page == 0 {
      assert vm.State() == s;
      AbandonClone(vm, src, dest, i + 1, j, s0, owner);
      return false, owner';
    }
    CopyCell(s0, s, sd, d, owner, i, j, page / 4096);
    CopiesAfter(owner, page / 4096, Copy(i, j));
    owner' := owner[page / 4096 := Copy(i, j)];
    FillCopy(vm, page, destTable, i, j, e);
    return true, owner';
  }

  /** The new page gets the contents of cell (i, j)'s frame, and cell j of the table gets the page. */
  method FillCopy(vm: PagedMemory, page: u32, destTable: nat, i: u32, j: u32, e: u32)
    requires vm.Valid() && page % 4096 == 0 && page / 4096 < vm.mem.Length && destTable < vm.mem.Length
    requires i < KERNEL && j < WORDS && vm.current / 4096 < vm.mem.Length
    requires IsCopied(e) && e == Cell(vm.State().m, vm.current / 4096, i, j) && FrameOf(e) < vm.mem.Length
    modifies vm.mem
    ensures vm.State() == Machine(
      SetEntry(old(vm.State().m)[page / 4096 := old(vm.State().m)[FrameOf(e)]], destTable, j,
        Entry(page / 4096, FlagsOf(e))), old(vm.State().v))
    ensures vm.Valid()
  {
    hide Pmm.Unpack, Pmm.Allocator.View, PageTables.View, And, Or, Shl32, Translate, Cell, Entry;
    TranslateCell(vm.State().m, vm.current / 4096, i, j);
    CopyPage(vm, page, Or(Shl32(i, 22), Shl32(j, 12)));
    EntryBits(e);
    StoredEntry(page, e);
    vm.StoreCell(destTable, j, Or(page, And(e, 0xFFF)));
  }

  lemma {:induction false} StoredEntry(page: u32, e: u32)
    requires page % 4096 == 0
    ensures Or(page, FlagsOf(e)) == Entry(page / 4096, FlagsOf(e))
  {
    OrAboveTwelve(page / 4096, FlagsOf(e));
  }
}
