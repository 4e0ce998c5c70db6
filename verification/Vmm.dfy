/** Virtual memory manager (mem/vmm.c): directories and tables written in place in physical
    frames. Pointers are physical addresses; 0 is NULL. */
module Vmm {
  import opened Bits
  import opened Bitmaps
  import opened PageTables
  import Pmm

  class PagedMemory {
    const pmm: Pmm.Allocator
    const mem: array<Frame>
    var current: u32 // current_directory

    constructor (pmm: Pmm.Allocator, mem: array<Frame>)
      ensures this.pmm == pmm && this.mem == mem && current == 0
    {
      this.pmm, this.mem, current := pmm, mem, 0;
    }

    ghost predicate Shape()
    {
      pmm.Shape() && mem.Length == pmm.blocks && mem as object != pmm.memoryMap
    }

    ghost predicate Valid()
      reads this, pmm, pmm.memoryMap
    {
      Shape() && pmm.Valid()
    }

    ghost function State(): (s: Machine)
      requires Shape()
      reads mem, pmm.memoryMap
    {
      Machine(mem[..], pmm.View())
    }

    /** One 32-bit store into entry j of the table held in a frame. */
    method StoreCell(frame: nat, j: nat, e: u32)
      requires frame < mem.Length && j < WORDS
      modifies mem
      ensures mem[..] == SetEntry(old(mem[..]), frame, j, e)
    {
      mem[frame] := mem[frame][j := e];
    }

    /** memset of a whole frame to 0. */
    method ClearFrame(frame: nat)
      requires frame < mem.Length
      modifies mem
      ensures mem[..] == old(mem[..])[frame := Zeroed()]
    {
      mem[frame] := Zeroed();
    }

    method GetPageTable(dir: u32, idx: u32, allocate: bool) returns (table: u32)
      requires Valid() && dir % 4096 == 0 && WellFormed(State(), dir / 4096)
      modifies mem, pmm.memoryMap, pmm`used
      ensures Valid()
      ensures State() == if allocate && idx < WORDS then WithTable(old(State()), dir / 4096, idx) else old(State())
      ensures WellFormed(State(), dir / 4096)
      ensures table != 0 <==> idx < WORDS && Present(State().m[dir / 4096][idx])
      ensures table != 0 ==> table == TableAt(State().m, dir / 4096, idx) * 4096
    {
      hide Pmm.Unpack, Pmm.Allocator.View, PageTables.View, WellFormed, WithTable, Search, And, Or, Not32;
      table := 0;
      if idx >= 1024 {
        return;
      }
      var d := dir / 4096;
      ghost var s := State();
      WithTableKeeps(s, d, idx);
      WithTableCases(s, d, idx);
      EntryBits(mem[d][idx]);
      if And(mem[d][idx], 1) != 0 {
        table := And(mem[d][idx], Not32(0xFFF));
      } else if allocate {
        table := AddTable(dir, idx);
      }
    }

    /** The allocating branch: a cleared frame is hooked into the directory. */
    method AddTable(dir: u32, idx: u32) returns (table: u32)
      requires Valid() && WellFormed(State(), dir / 4096) && idx < WORDS && !Present(State().m[dir / 4096][idx])
      modifies mem, pmm.memoryMap, pmm`used
      ensures Valid() && State() == WithTable(old(State()), dir / 4096, idx)
      ensures table == if Search(old(State().v), 1, 0) == -1 then 0 else Search(old(State().v), 1, 0) * 4096
    {
      hide Pmm.Unpack, Pmm.Allocator.View, PageTables.View, WellFormed, WithTable, Search, And, Or, Entry, Zeroed;
      var d := dir / 4096;
      ghost var t := Search(State().v, 1, 0);
      WithTableCases(State(), d, idx);
      table := pmm.AllocBlock();
      if table == 0 {
        return;
      }
      MulMod(t, 4096);
      TableFlagBits(table);
      ClearFrame(table / 4096);
      StoreCell(d, idx, Or(Or(Or(table, 1), 2), 4));
    }

    method CreateDirectory() returns (dir: u32)
      requires Valid()
      modifies mem, pmm.memoryMap, pmm`used
      ensures Valid()
      ensures var t := Search(old(State().v), 1, 0);
        if t == -1 then dir == 0 && State() == old(State())
        else t > 0 && dir == t * 4096 && State() == Machine(old(State().m)[t := Zeroed()], old(State().v)[t := true])
    {
      hide Pmm.Unpack, Pmm.Allocator.View, Search;
      dir := pmm.AllocBlock();
      if dir == 0 {
        return;
      }
      ClearFrame(dir / 4096);
    }

    method MapPage(dir: u32, phys: u32, virt: u32, flags: u32) returns (ok: bool)
      requires Valid() && dir % 4096 == 0 && WellFormed(State(), dir / 4096)
      modifies mem, pmm.memoryMap, pmm`used
      ensures Valid() && WellFormed(State(), dir / 4096)
      ensures Outcome(State(), ok) == Step(old(State()), dir / 4096, Map(phys, virt, flags))
      ensures View(State().m, dir / 4096) ==
        if ok then Bind(old(View(State().m, dir / 4096)), virt / 4096, MapEntry(phys, flags))
        else old(View(State().m, dir / 4096))
    {
      hide Pmm.Unpack, Pmm.Allocator.View, WellFormed, WithTable, PageTables.MapPage, PageTables.View, MapEntry, And,
        Or, Shr, Not32, Bind;
      var alignedPhys := And(phys, Not32(0xFFF));
      var alignedVirt := And(virt, Not32(0xFFF));
      AlignedIndex(virt);
      var pdidx := And(Shr(alignedVirt, 22), 0x3FF);
      var ptidx := And(Shr(alignedVirt, 12), 0x3FF);
      PackBits(phys, flags);
      ghost var e := MapEntry(phys, flags);
      MapPageRefines(State(), dir / 4096, virt / 4096, e);
      MapPageByTable(State(), dir / 4096, virt / 4096, e);
      var table := GetPageTable(dir, pdidx, true);
      if table == 0 {
        return false;
      }
      StoreCell(table / 4096, ptidx, Or(alignedPhys, And(flags, 0xFFF)));
      return true;
    }

    method UnmapPage(dir: u32, virt: u32) returns (ok: bool)
      requires Valid() && dir % 4096 == 0 && WellFormed(State(), dir / 4096)
      modifies mem, pmm.memoryMap, pmm`used
      ensures Valid() && WellFormed(State(), dir / 4096)
      ensures Outcome(State(), ok) == Step(old(State()), dir / 4096, Unmap(virt))
      ensures View(State().m, dir / 4096) == old(View(State().m, dir / 4096)) - {virt / 4096}
    {
      hide Pmm.Unpack, Pmm.Allocator.View, WellFormed, PageTables.UnmapPage, PageTables.View, And, Or, Shr;
      IndexBits(virt);
      var pdidx := And(Shr(virt, 22), 0x3FF);
      var ptidx := And(Shr(virt, 12), 0x3FF);
      UnmapPageRefines(State(), dir / 4096, virt / 4096);
      UnmapPageByTable(State(), dir / 4096, virt / 4096);
      var table := GetPageTable(dir, pdidx, false);
      if table == 0 {
        return false;
      }
      StoreCell(table / 4096, ptidx, 0);
      return true;
    }

    /** vmm_get_mapping: true exactly for bound pages, with the physical address. */
    method GetMapping(dir: u32, virt: u32) returns (ok: bool, phys: u32)
      requires Valid() && dir % 4096 == 0 && WellFormed(State(), dir / 4096)
      modifies mem, pmm.memoryMap, pmm`used
      ensures Valid() && State() == old(State())
      ensures ok <==> virt / 4096 in View(State().m, dir / 4096)
      ensures ok ==> phys == View(State().m, dir / 4096)[virt / 4096].frame * 4096 + virt % 4096
    {
      hide And, Shr;
      IndexBits(virt);
      var pdidx := And(Shr(virt, 22), 0x3FF);
      var ptidx := And(Shr(virt, 12), 0x3FF);
      var offset := And(virt, 0xFFF);
      TranslateIsView(State(), dir / 4096, virt);
      var table := GetPageTable(dir, pdidx, false);
      assert TableOk(State(), dir / 4096, pdidx);
      if table == 0 {
        return false, 0;
      }
      var e := mem[table / 4096][ptidx];
      EntryBits(e);
      if And(e, 1) == 0 {
        return false, 0;
      }
      return true, And(e, Not32(0xFFF)) + offset;
    }

    /** vmm_free_directory: exactly the directory frame and its tables become free. */
    method FreeDirectory(dir: u32)
      requires Valid() && dir % 4096 == 0 && WellFormed(State(), dir / 4096)
      modifies pmm.memoryMap, pmm`used
      ensures Valid() && mem[..] == old(mem[..])
      ensures forall f | 0 <= f < |State().v| ::
        State().v[f] <==> old(State().v)[f] && f != dir / 4096 && !IsTable(State().m, dir / 4096, WORDS, f)
    {
      hide Pmm.Unpack, Pmm.Allocator.View, PageTables.View, And, Not32, WellFormed, FreedTables, IsTable;
      ghost var s := State();
      var d := dir / 4096;
      WellFormedBounds(s, d);
      FreedNone(s, d);
      var i := 0;
      while i < 1024
        invariant 0 <= i <= WORDS && Valid() && mem[..] == s.m && FreedTables(s, d, i, State().v)
      {
        EntryBits(mem[d][i]);
        FreeableTable(s, d, i, State().v);
        ghost var v := State().v;
        if And(mem[d][i], 1) != 0 {
          pmm.FreeBlock(And(mem[d][i], Not32(0xFFF)));
        }
        FreeTableStep(s, d, i, v, State().v);
        i := i + 1;
      }
      FreedAll(s, d, State().v);
      pmm.FreeBlock(dir);
    }
  }

  lemma {:induction false} AlignedIndex(virt: u32)
    ensures And(Shr(And(virt, Not32(0xFFF)), 22), 0x3FF) == (virt / 4096) / 1024
    ensures And(Shr(And(virt, Not32(0xFFF)), 12), 0x3FF) == (virt / 4096) % 1024
  {
    EntryBits(virt);
    MulMod(virt / 4096, 4096);
    IndexBits(And(virt, Not32(0xFFF)));
  }
}
