/** Physical memory manager (mem/pmm.c): a bitmap of 4 KB blocks with a redundant counter. */
module Pmm {
  import opened Bits
  import opened Bitmaps
  import opened PmmPool

  const MAX_BLOCKS: nat := 0x10_0000 // 32-bit addresses of 4 KB blocks

  /** The blocks described by the bitmap words. */
  function Unpack(words: seq<u32>, n: nat): (v: Bitmap)
    requires n <= 32 * |words|
    ensures |v| == n
  {
    if n == 0 then [] else Unpack(words, n - 1) + [Bit(words[(n - 1) / 32], (n - 1) % 32)]
  }

  lemma {:induction false} UnpackAt(words: seq<u32>, n: nat, i: nat)
    requires i < n <= 32 * |words|
    ensures Unpack(words, n)[i] == Bit(words[i / 32], i % 32)
  {
    if i < n - 1 {
      UnpackAt(words, n - 1, i);
    }
  }

  lemma {:induction false} BlockAddress(bit: nat)
    ensures (bit * 4096) / 4096 == bit && (bit * 4096) % 4096 == 0
  {}

  lemma {:induction false} UnpackUpdate(words: seq<u32>, n: nat, bit: nat, w: u32, b: bool)
    requires n <= 32 * |words| && bit < n
    requires forall j: nat | j < 32 :: Bit(w, j) == if j == bit % 32 then b else Bit(words[bit / 32], j)
    ensures Unpack(words[bit / 32 := w], n) == Unpack(words, n)[bit := b]
  {
    var v := Unpack(words[bit / 32 := w], n);
    forall i | 0 <= i < n
      ensures v[i] == Unpack(words, n)[bit := b][i]
    {
      UnpackAt(words, n, i);
      UnpackAt(words[bit / 32 := w], n, i);
      if i / 32 == bit / 32 {
        assert i % 32 == bit % 32 <==> i == bit;
      }
    }
  }

  class Allocator {
    const memoryMap: array<u32>     // pmm_memory_map
    const blocks: nat         // mem_blocks
    var used: u32             // mem_used_blocks

    ghost predicate Shape()
    {
      blocks <= MAX_BLOCKS && blocks <= 32 * memoryMap.Length
    }

    ghost function View(): (v: Bitmap)
      requires Shape()
      reads memoryMap
      ensures |v| == blocks
    {
      Unpack(memoryMap[..], blocks)
    }

    ghost function Abs(): Pool
      requires Shape()
      reads this, memoryMap
    {
      Pool(View(), used)
    }

    /** The counter agrees with the bitmap, and block 0 is reserved (address 0 means failure). */
    ghost predicate Valid()
      reads this, memoryMap
    {
      Shape() && used == Count(View()) && blocks > 0 && View()[0]
    }

    method SetBlock(bit: u32)
      requires Shape() && bit < blocks
      modifies memoryMap, this`used
      ensures View() == old(View())[bit := true] && used == Add32(old(used), 1)
    {
      var w := Or(memoryMap[bit / 32], Pow2(bit % 32));
      WordBits(memoryMap[bit / 32], bit % 32);
      UnpackUpdate(memoryMap[..], blocks, bit, w, true);
      assert memoryMap[..][bit / 32 := w] == memoryMap[..bit / 32] + [w] + memoryMap[bit / 32 + 1..];
      memoryMap[bit / 32] := w;
      assert memoryMap[..] == old(memoryMap[..])[bit / 32 := w];
      used := Add32(used, 1);
    }

    method UnsetBlock(bit: u32)
      requires Shape() && bit < blocks
      modifies memoryMap, this`used
      ensures View() == old(View())[bit := false] && used == Sub32(old(used), 1)
    {
      WordBits(memoryMap[bit / 32], bit % 32);
      var w := And(memoryMap[bit / 32], Not32(Pow2(bit % 32)));
      UnpackUpdate(memoryMap[..], blocks, bit, w, false);
      memoryMap[bit / 32] := w;
      assert memoryMap[..] == old(memoryMap[..])[bit / 32 := w];
      used := Sub32(used, 1);
    }

    method TestBlock(bit: u32) returns (b: bool)
      requires Shape() && bit < blocks
      ensures b == View()[bit]
    {
      b := And(memoryMap[bit / 32], Pow2(bit % 32)) != 0;
      AndSingleBit(memoryMap[bit / 32], bit % 32);
      UnpackAt(memoryMap[..], blocks, bit);
    }

    /** pmm_find_first_free_blocks: the least start of a free run, or -1. */
    method FindFirstFree(count: u32) returns (r: int)
      requires Shape()
      ensures count == 0 ==> r == -1
      ensures count > 0 ==> r == Search(View(), count, 0)
    {
      if count == 0 {
        return -1;
      }
      if count == 1 {
        var i := 0;
        while i < blocks
          invariant 0 <= i <= blocks
          invariant forall k | 0 <= k < i :: View()[k]
        {
          var b := TestBlock(i);
          if !b {
            forall s | s < i
              ensures !FreeRun(View(), s, 1)
            {
              if s >= 0 {
                NoRunThrough(View(), s, 1, s);
              }
            }
            SearchIsFirstFit(View(), 1, i);
            return i;
          }
          i := i + 1;
        }
        assert forall s :: FreeRun(View(), s, 1) ==> !View()[s];
        SearchIsFirstFit(View(), 1, -1);
      } else {
        var freeBlocks, firstFree := 0, -1;
        var i := 0;
        while i < blocks
          invariant 0 <= freeBlocks <= i <= blocks && freeBlocks < count
          invariant firstFree == if freeBlocks == 0 then -1 else i - freeBlocks
          invariant forall k | i - freeBlocks <= k < i :: !View()[k]
          invariant i - freeBlocks > 0 ==> View()[i - freeBlocks - 1]
          invariant forall s | s + count <= i :: !FreeRun(View(), s, count)
        {
          var b := TestBlock(i);
          if !b {
            if freeBlocks == 0 {
              firstFree := i;
            }
            freeBlocks := freeBlocks + 1;
            if freeBlocks == count {
              SearchIsFirstFit(View(), count, firstFree);
              return firstFree;
            }
          } else {
            freeBlocks := 0;
            firstFree := -1;
          }
          i := i + 1;
          forall s | s + count <= i
            ensures !FreeRun(View(), s, count)
          {
            if s >= 0 && s + count == i {
              NoRunThrough(View(), s, count, i - freeBlocks - 1);
            }
          }
        }
        assert forall s :: FreeRun(View(), s, count) ==> s + count <= blocks;
        SearchIsFirstFit(View(), count, -1);
      }
      return -1;
    }

    /** Whatever the state: the specified call. With an agreeing counter it fails only when no block
        is free. */
    method AllocBlock() returns (p: u32)
      requires Shape()
      modifies memoryMap, this`used
      ensures Abs() == Step(old(Abs()), AllocOne)
      ensures p == if FoundOne(old(Abs())) == -1 then 0 else FoundOne(old(Abs())) * 4096
      ensures old(Valid()) ==> Valid() && (p == 0 <==> FoundOne(old(Abs())) == -1)
      ensures old(Valid()) ==>
        var r := Search(old(View()), 1, 0);
        if r == -1 then p == 0 && View() == old(View())
        else r > 0 && p == r * 4096 && View() == old(View())[r := true]
    {
      hide Search, Count, Unpack;
      ghost var v := View();
      if old(Valid()) {
        AgreeingCounter(Abs());
      }
      p := 0;
      if used >= blocks {
        return;
      }
      var freeBlock := FindFirstFree(1);
      if freeBlock == -1 {
        return;
      }
      OneIsUpdate(v, freeBlock);
      assert FreeRun(v, freeBlock, 1);
      CountUpdate(v, freeBlock, true);
      SetBlock(freeBlock);
      BlockAddress(freeBlock);
      p := freeBlock * 4096;
    }

    /** Any address: the bit is cleared and the counter goes down. They keep agreeing if and only if
        the block was in use; block 0 is reserved. */
    method FreeBlock(p: u32)
      requires Shape()
      modifies memoryMap, this`used
      ensures Abs() == Step(old(Abs()), FreeOne(p))
      ensures View() == if p / 4096 < blocks then old(View())[p / 4096 := false] else old(View())
      ensures old(Valid()) ==> (Valid() <==> (p / 4096 < blocks ==> 0 < p / 4096 && old(View())[p / 4096]))
    {
      hide Count, Unpack;
      var block := p / 4096;
      if block >= blocks {
        return;
      }
      ghost var v := View();
      OneIsUpdate(v, block);
      CountUpdate(v, block, false);
      UnsetBlock(block);
    }

    method AllocBlocks(size: u32) returns (p: u32)
      requires Shape()
      modifies memoryMap, this`used
      ensures Abs() == Step(old(Abs()), AllocMany(size))
      ensures p == if Found(old(Abs()), size) == -1 then 0 else Found(old(Abs()), size) * 4096
      ensures old(Valid()) ==> Valid() && (p == 0 <==> Found(old(Abs()), size) == -1)
      ensures old(Valid()) ==>
        var r := Search(old(View()), size, 0);
        if size == 0 || r == -1 then p == 0 && View() == old(View())
        else r > 0 && p == r * 4096 && View() == Fill(old(View()), r, size, true)
    {
      hide Search, Count, Unpack, Fill;
      if old(Valid()) {
        AgreeingCounter(Abs());
      }
      if Add32(used, size) > blocks {
        return 0;
      }
      var startingBlock := FindFirstFree(size);
      if startingBlock == -1 {
        return 0;
      }
      FillKeepsUsed(View(), startingBlock, size);
      MarkRun(startingBlock, size);
      BlockAddress(startingBlock);
      p := startingBlock * 4096;
    }

    /** The loop of pmm_alloc_blocks. */
    method MarkRun(start: u32, size: u32)
      requires Shape() && FreeRun(View(), start, size)
      modifies memoryMap, this`used
      ensures Abs() == Taken(old(Abs()), start, size)
      ensures old(used) == Count(old(View())) ==> used == Count(View())
    {
      hide Count, Unpack;
      ghost var v := View();
      assert Fill(v, start, 0, true) == v;
      var i := 0;
      while i < size
        invariant 0 <= i <= size
        invariant View() == Fill(v, start, i, true)
        invariant used == (old(used) + i) % U32
      {
        FillGrow(v, start, i, true);
        SetBlock(start + i);
        CounterUp(old(used), i);
        i := i + 1;
      }
      CountFill(v, start, size, true);
    }

    /** Any range: its existing blocks are cleared and the counter goes down for each of them. They
        keep agreeing if and only if all of those were in use. */
    method FreeBlocks(p: u32, size: u32)
      requires Shape()
      modifies memoryMap, this`used
      ensures Abs() == Step(old(Abs()), FreeMany(p, size))
      ensures View() == Fill(old(View()), p / 4096, size, false)
      ensures old(Valid()) ==>
        (Valid() <==> forall k | p / 4096 <= k < p / 4096 + size && k < blocks :: 0 < k && old(View())[k])
    {
      hide Count, Unpack, Fill;
      ghost var v := View();
      ClearRun(p / 4096, size);
      if old(Valid()) {
        AgreesAfterFree(v, p / 4096, size, used);
        ZeroAfterFree(v, p / 4096, size);
      }
    }

    /** The loop of pmm_free_blocks. */
    method ClearRun(block: u32, size: u32)
      requires Shape()
      modifies memoryMap, this`used
      ensures Abs() == Given(old(Abs()), block, size)
    {
      hide Count, Unpack;
      ghost var v := View();
      assert Fill(v, block, 0, false) == v;
      var i := 0;
      while i < size && block + i < blocks
        invariant 0 <= i <= size && (i == 0 || block + i <= blocks)
        invariant View() == Fill(v, block, i, false)
        invariant used == (old(used) - i) % U32
      {
        FillGrow(v, block, i, false);
        UnsetBlock(block + i);
        CounterDown(old(used), i);
        i := i + 1;
      }
      assert Fill(v, block, i, false) == Fill(v, block, size, false);
      assert i == Existing(blocks, block, size);
    }
  }

  lemma {:induction false} FillKeepsUsed(v: Bitmap, start: nat, n: nat)
    ensures forall k | 0 <= k < |v| && v[k] :: Fill(v, start, n, true)[k]
  {}

  lemma {:induction false} ZeroAfterFree(v: Bitmap, start: nat, n: nat)
    requires |v| > 0 && v[0]
    ensures Fill(v, start, n, false)[0] <==> !(start == 0 && n > 0)
  {}

  lemma {:induction false} OneIsUpdate(v: Bitmap, k: nat)
    requires k < |v|
    ensures Fill(v, k, 1, true) == v[k := true] && Fill(v, k, 1, false) == v[k := false]
  {}

  lemma {:induction false} CounterUp(used: u32, i: nat)
    ensures Add32((used + i) % U32, 1) == (used + (i + 1)) % U32
  {
    ModShift(used + i, used + i, 1);
  }

  lemma {:induction false} CounterDown(used: u32, i: nat)
    ensures Sub32((used - i) % U32, 1) == (used - (i + 1)) % U32
  {
    ModShift(used - i, used - i, -1);
  }

  /** The counter after a free agrees with the cleared bitmap exactly when the range was in use. */
  lemma {:induction false} AgreesAfterFree(v: Bitmap, start: nat, n: nat, used: u32)
    requires |v| <= MAX_BLOCKS && used == (Count(v) - Existing(|v|, start, n)) % U32
    ensures used == Count(Fill(v, start, n, false)) <==> forall k | start <= k < start + n && k < |v| :: v[k]
  {
    hide Count;
    CountCleared(v, start, n);
    UnusedRange(v, start, n);
  }

  lemma {:induction false} WordBit(w: u32, k: nat, j: nat)
    requires k < 32 && j < 32 && Pow2(k) < Pow2(32) == U32
    ensures Bit(Or(w, Pow2(k)), j) == (j == k || Bit(w, j))
    ensures Bit(And(w, Not32(Pow2(k))), j) == (j != k && Bit(w, j))
  {
    BitOfOr(w, Pow2(k), j);
    BitOfPow2(k, j);
    BitOfComplement(32, Pow2(k), j);
    BitOfAnd(w, Not32(Pow2(k)), j);
  }

  lemma {:induction false} WordBits(w: u32, k: nat)
    requires k < 32
    ensures Pow2(k) < U32 && Or(w, Pow2(k)) < U32
    ensures forall j: nat | j < 32 :: Bit(Or(w, Pow2(k)), j) == (j == k || Bit(w, j))
    ensures forall j: nat | j < 32 :: Bit(And(w, Not32(Pow2(k))), j) == (j != k && Bit(w, j))
  {
    Pow2Values();
    Pow2Grows(k + 1, 32);
    OrBelow(w, Pow2(k), 32);
    forall j: nat | j < 32
      ensures Bit(Or(w, Pow2(k)), j) == (j == k || Bit(w, j))
      ensures Bit(And(w, Not32(Pow2(k))), j) == (j != k && Bit(w, j))
    {
      WordBit(w, k, j);
    }
  }
}
