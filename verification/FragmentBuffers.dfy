/** The blocks behind the reassembly buffers (net/ipv4.c): 64 KB each, taken by the first fragment of
    a datagram, given back when it is complete, or by ipv4_cleanup. */
module FragmentBuffers {
  import opened Bits
  import opened Bitmaps
  import opened Holdings
  import opened Pmm
  import opened Seqs
  import PmmPool

  const BUFFERS: nat := 64  // MAX_FRAGMENTS
  const PAGES: u32 := 16    // IPV4_MAX_PACKET_SIZE in blocks

  /** A buffer in use: its data pointer and the total length known so far, 0 if unknown. */
  datatype Buffer = Buffer(data: u32, total: u16)

  /** The buffers in use, and the allocator: bitmap and counter. */
  datatype Shelf = Shelf(buffers: seq<Buffer>, pool: PmmPool.Pool)

  /** The blocks ipv4_cleanup computes from the total length. */
  function TotalBlocks(total: u16): u32 {
    (total + 4095) / 4096
  }

  datatype Call = Take | SetTotal(k: nat, total: u16) | Release(k: nat) | Cleanup

  predicate Granted(s: Shelf) {
    |s.buffers| < BUFFERS && PmmPool.Found(s.pool, PAGES) != -1
  }

  function NewBuffer(p: PmmPool.Pool): Buffer
    requires |p.v| <= MAX_BLOCKS && PmmPool.Found(p, PAGES) != -1
  {
    FoundInside(p, PAGES);
    Buffer(PmmPool.Found(p, PAGES) * 4096, 0)
  }

  /** The frees of ipv4_cleanup, first buffer to last. */
  function Cleaned(p: PmmPool.Pool, buffers: seq<Buffer>): (p': PmmPool.Pool)
    ensures |p'.v| == |p.v|
    decreases |buffers|
  {
    if buffers == [] then p
    else Cleaned(PmmPool.Step(p, PmmPool.FreeMany(buffers[0].data, TotalBlocks(buffers[0].total))), buffers[1..])
  }

  /** After ipv4_cleanup the table is forgotten; ipv4_init clears it. */
  function Step(s: Shelf, c: Call): (s': Shelf)
    requires |s.pool.v| <= MAX_BLOCKS
    ensures |s'.pool.v| == |s.pool.v|
  {
    match c
    case Take =>
      if Granted(s) then Shelf(s.buffers + [NewBuffer(s.pool)], PmmPool.Step(s.pool, PmmPool.AllocMany(PAGES))) else s
    case SetTotal(k, total) =>
      if k < |s.buffers| then s.(buffers := s.buffers[k := s.buffers[k].(total := total)]) else s
    case Release(k) =>
      if k < |s.buffers|
      then Shelf(Without(s.buffers, k), PmmPool.Step(s.pool, PmmPool.FreeMany(s.buffers[k].data, PAGES)))
      else s
    case Cleanup => Shelf([], Cleaned(s.pool, s.buffers))
  }

  function Frames(b: Buffer): set<nat> {
    Blocks(b.data / 4096, PAGES)
  }

  function FramesOf(s: seq<Buffer>): (fs: seq<set<nat>>)
    ensures |fs| == |s| && forall i | 0 <= i < |s| :: fs[i] == Frames(s[i])
  {
    if s == [] then [] else [Frames(s[0])] + FramesOf(s[1..])
  }

  ghost predicate Consistent(base: Bitmap, s: Shelf) {
    && 0 < |base| <= MAX_BLOCKS && base[0] && |s.buffers| <= BUFFERS
    && Conserved(base, s.pool.v, FramesOf(s.buffers)) && PmmPool.Agrees(s.pool)
  }

  /** Every buffer in use has a length that names all of its blocks. */
  predicate Whole(buffers: seq<Buffer>) {
    forall i | 0 <= i < |buffers| :: TotalBlocks(buffers[i].total) == PAGES
  }

  /** ipv4_cleanup is called only while every total length names its whole buffer. */
  predicate CleansWhole(s: Shelf, c: Call) {
    c.Cleanup? ==> Whole(s.buffers)
  }

  /** A datagram of the 64 units the flags can record never names more than one of its 16 blocks. */
  lemma {:induction false} WholeExactly(buffers: seq<Buffer>)
    ensures forall i | 0 <= i < |buffers| :: TotalBlocks(buffers[i].total) == PAGES <==> buffers[i].total > 61440
    ensures (forall i | 0 <= i < |buffers| :: buffers[i].total <= 512) ==> (Whole(buffers) <==> buffers == [])
  {
    if buffers != [] && (forall i | 0 <= i < |buffers| :: buffers[i].total <= 512) {
      assert TotalBlocks(buffers[0].total) <= 1;
    }
  }

  /** A buffer is granted exactly when fewer than 64 are in use and 16 blocks in a row are found. */
  lemma {:induction false} GrantedExactly(s: Shelf)
    requires |s.pool.v| <= MAX_BLOCKS
    ensures |Step(s, Take).buffers| == |s.buffers| + 1 <==> |s.buffers| < 64 && PmmPool.Found(s.pool, 16) != -1
    ensures |Step(s, Take).buffers| == |s.buffers| + 1 ==>
      Step(s, Take).buffers == s.buffers + [Buffer(PmmPool.Found(s.pool, 16) * 4096, 0)]
  {
    FoundInside(s.pool, 16);
    hide PmmPool.Found;
  }

  lemma {:induction false} FramesAppended(s: seq<Buffer>, b: Buffer)
    ensures FramesOf(s + [b]) == FramesOf(s) + [Frames(b)]
  {
    hide Frames;
  }

  lemma {:induction false} FramesWithout(s: seq<Buffer>, k: nat)
    requires k < |s|
    ensures FramesOf(Without(s, k)) == Without(FramesOf(s), k)
  {
    hide Frames;
  }

  lemma {:induction false} TakeConsistent(base: Bitmap, s: Shelf)
    requires Consistent(base, s) && |s.pool.v| <= MAX_BLOCKS
    ensures Consistent(base, Step(s, Take))
  {
    hide Conserved, PmmPool.Found, PmmPool.Agrees, FramesOf;
    if Granted(s) {
      var fs := FramesOf(s.buffers);
      FoundInside(s.pool, PAGES);
      BlockAddress(PmmPool.Found(s.pool, PAGES));
      TakenMarks(s.pool, PAGES);
      FramesAppended(s.buffers, NewBuffer(s.pool));
      GrantConserved(base, s.pool.v, fs, |fs|, Blocks(PmmPool.Found(s.pool, PAGES), PAGES));
      assert fs[..|fs|] + [Frames(NewBuffer(s.pool))] + fs[|fs|..] == fs + [Frames(NewBuffer(s.pool))];
    }
  }

  lemma {:induction false} SetTotalConsistent(base: Bitmap, s: Shelf, k: nat, total: u16)
    requires Consistent(base, s) && |s.pool.v| <= MAX_BLOCKS
    ensures Consistent(base, Step(s, SetTotal(k, total)))
  {
    hide Conserved, PmmPool.Agrees, Blocks;
    assert FramesOf(Step(s, SetTotal(k, total)).buffers) == FramesOf(s.buffers);
  }

  /** A complete datagram gives back exactly its buffer. */
  lemma {:induction false} ReleaseConsistent(base: Bitmap, s: Shelf, k: nat)
    requires Consistent(base, s) && |s.pool.v| <= MAX_BLOCKS && k < |s.buffers|
    ensures Consistent(base, Step(s, Release(k)))
    ensures Step(s, Release(k)).pool.v == Mark(s.pool.v, Frames(s.buffers[k]), false)
  {
    hide Conserved, PmmPool.Agrees, PmmPool.Step, Blocks;
    HeldIsUsed(base, s.pool.v, FramesOf(s.buffers), k);
    GivenMarks(s.pool, s.buffers[k].data, PAGES);
    FramesWithout(s.buffers, k);
    ReturnConserved(base, s.pool.v, FramesOf(s.buffers), k);
  }

  /** The blocks the frees of ipv4_cleanup clear. */
  function CleanedFrames(buffers: seq<Buffer>): set<nat> {
    if buffers == [] then {}
    else Blocks(buffers[0].data / 4096, TotalBlocks(buffers[0].total)) + CleanedFrames(buffers[1..])
  }

  lemma {:induction false} CleanedMarks(p: PmmPool.Pool, buffers: seq<Buffer>)
    requires |p.v| < U32
    ensures Cleaned(p, buffers).v == Mark(p.v, CleanedFrames(buffers), false)
    decreases |buffers|
  {
    hide PmmPool.Step, Blocks;
    if buffers != [] {
      GivenMarks(p, buffers[0].data, TotalBlocks(buffers[0].total));
      CleanedMarks(PmmPool.Step(p, PmmPool.FreeMany(buffers[0].data, TotalBlocks(buffers[0].total))), buffers[1..]);
      MarkTwice(p.v, Blocks(buffers[0].data / 4096, TotalBlocks(buffers[0].total)), CleanedFrames(buffers[1..]), false);
    }
  }

  lemma {:induction false} CleanedInside(buffers: seq<Buffer>)
    ensures CleanedFrames(buffers) <= Union(FramesOf(buffers))
    ensures Whole(buffers) ==> CleanedFrames(buffers) == Union(FramesOf(buffers))
    decreases |buffers|
  {
    hide Union;
    if buffers == [] {
      NoUnion();
    } else {
      CleanedInside(buffers[1..]);
      UnionCons(Frames(buffers[0]), FramesOf(buffers[1..]));
      assert Whole(buffers) ==> Whole(buffers[1..]);
    }
  }

  lemma {:induction false} HeadApart(buffers: seq<Buffer>)
    requires buffers != [] && PairwiseDisjoint(FramesOf(buffers))
    ensures Union(FramesOf(buffers[1..])) !! Frames(buffers[0]) && PairwiseDisjoint(FramesOf(buffers[1..]))
  {
    hide Union;
    forall j, k | 0 <= j < k < |buffers| - 1
      ensures FramesOf(buffers[1..])[j] !! FramesOf(buffers[1..])[k]
    {
      assert FramesOf(buffers)[j + 1] !! FramesOf(buffers)[k + 1];
    }
    forall k | 0 <= k < |buffers| - 1
      ensures FramesOf(buffers[1..])[k] !! Frames(buffers[0])
    {
      assert FramesOf(buffers)[0] !! FramesOf(buffers)[k + 1];
    }
    UnionApart(FramesOf(buffers[1..]), Frames(buffers[0]));
  }

  /** A buffer whose length names fewer than its blocks keeps its last block. */
  lemma {:induction false} LastBlockStays(buffers: seq<Buffer>, i: nat)
    requires i < |buffers| && PairwiseDisjoint(FramesOf(buffers)) && TotalBlocks(buffers[i].total) != PAGES
    ensures buffers[i].data / 4096 + 15 in Union(FramesOf(buffers))
    ensures buffers[i].data / 4096 + 15 !in CleanedFrames(buffers)
    decreases |buffers|
  {
    hide Union;
    var last := buffers[i].data / 4096 + 15;
    assert last in FramesOf(buffers)[i];
    if i > 0 {
      assert FramesOf(buffers)[0] !! FramesOf(buffers)[i];
      HeadApart(buffers);
      LastBlockStays(buffers[1..], i - 1);
    } else {
      CleanedInside(buffers[1..]);
      HeadApart(buffers);
    }
  }

  lemma {:induction false} CleanedAgrees(p: PmmPool.Pool, buffers: seq<Buffer>)
    requires |p.v| < U32 && PmmPool.Agrees(p) && PairwiseDisjoint(FramesOf(buffers))
    requires AllAre(p.v, Union(FramesOf(buffers)), true)
    ensures PmmPool.Agrees(Cleaned(p, buffers))
    decreases |buffers|
  {
    hide PmmPool.Step, PmmPool.Agrees, Union;
    if buffers != [] {
      var p' := PmmPool.Step(p, PmmPool.FreeMany(buffers[0].data, TotalBlocks(buffers[0].total)));
      UnionCons(Frames(buffers[0]), FramesOf(buffers[1..]));
      GivenMarks(p, buffers[0].data, TotalBlocks(buffers[0].total));
      HeadApart(buffers);
      CleanedAgrees(p', buffers[1..]);
    }
  }

  /** ipv4_cleanup gives every block back if and only if every buffer in use has a length that names
      all of its 16 blocks; the counter is right either way. */
  lemma {:induction false} CleanupConsistentExactly(base: Bitmap, s: Shelf)
    requires Consistent(base, s) && |s.pool.v| <= MAX_BLOCKS
    ensures Consistent(base, Step(s, Cleanup)) <==> Whole(s.buffers)
    ensures PmmPool.Agrees(Step(s, Cleanup).pool)
  {
    hide Union, PmmPool.Agrees, Cleaned, Whole, FramesOf, CleanedFrames, PairwiseDisjoint;
    UnionIsUsed(base, s.pool.v, FramesOf(s.buffers));
    CleanedMarks(s.pool, s.buffers);
    CleanedInside(s.buffers);
    CleanedAgrees(s.pool, s.buffers);
    var v' := Cleaned(s.pool, s.buffers).v;
    NoneHeldExactly(base, v');
    if Whole(s.buffers) {
      assert v' == base;
    } else {
      var i := NotWhole(s.buffers);
      LastBlockStays(s.buffers, i);
      assert v'[s.buffers[i].data / 4096 + 15] && !base[s.buffers[i].data / 4096 + 15];
    }
  }

  lemma {:induction false} NoneHeldExactly(base: Bitmap, v: Bitmap)
    ensures Conserved(base, v, []) <==> v == base
  {
    NoneConserved(base);
    assert Mark(base, {}, true) == base;
  }

  lemma {:induction false} NotWhole(buffers: seq<Buffer>) returns (i: nat)
    requires !Whole(buffers)
    ensures i < |buffers| && TotalBlocks(buffers[i].total) != PAGES
  {
    i :| 0 <= i < |buffers| && TotalBlocks(buffers[i].total) != PAGES;
  }

  lemma {:induction false} StepConsistentExactly(base: Bitmap, s: Shelf, c: Call)
    requires Consistent(base, s) && |s.pool.v| <= MAX_BLOCKS
    ensures Consistent(base, Step(s, c)) <==> CleansWhole(s, c)
  {
    hide Consistent, Whole, Granted, Cleaned;
    match c
    case Take => TakeConsistent(base, s);
    case SetTotal(k, total) => SetTotalConsistent(base, s, k, total);
    case Release(k) => if k < |s.buffers| { ReleaseConsistent(base, s, k); }
    case Cleanup => CleanupConsistentExactly(base, s);
  }

  lemma {:induction false} ConsistentPool(base: Bitmap, s: Shelf)
    requires Consistent(base, s)
    ensures PmmPool.Agrees(s.pool) && 0 < |s.pool.v| == |base| <= MAX_BLOCKS && s.pool.v[0]
  {}

  class BufferTable {
    var buffers: seq<Buffer>  // the entries of reassembly_buffers whose data is not NULL
    const pmm: Allocator

    constructor (pmm: Allocator)
      ensures this.pmm == pmm && buffers == []
    {
      this.pmm, buffers := pmm, [];
    }

    ghost function Abs(): Shelf
      requires pmm.Shape()
      reads this, pmm, pmm.memoryMap
    {
      Shelf(buffers, pmm.Abs())
    }

    ghost predicate Valid(base: Bitmap)
      reads this, pmm, pmm.memoryMap
    {
      pmm.Valid() && Consistent(base, Abs())
    }

    /** The allocation for the first fragment of a datagram. */
    method TakeBuffer(ghost base: Bitmap) returns (ok: bool)
      requires Valid(base)
      modifies this, pmm.memoryMap, pmm`used
      ensures Valid(base) && |old(Abs()).pool.v| <= MAX_BLOCKS && Abs() == Step(old(Abs()), Take)
      ensures ok <==> Granted(old(Abs()))
    {
      hide Consistent, Unpack, PmmPool.Found, Count;
      ConsistentPool(base, Abs());
      TakeConsistent(base, Abs());
      if |buffers| >= 64 {
        return false;
      }
      var data := pmm.AllocBlocks((65535 + 4095) / 4096);
      if data == 0 {
        return false;
      }
      buffers := buffers + [Buffer(data, 0)];
      return true;
    }

    /** The last fragment has arrived: the total length is known. */
    method SetLength(k: nat, total: u16, ghost base: Bitmap)
      requires Valid(base) && k < |buffers|
      modifies this
      ensures Valid(base) && |old(Abs()).pool.v| <= MAX_BLOCKS && Abs() == Step(old(Abs()), SetTotal(k, total))
    {
      hide Consistent, Unpack;
      ConsistentPool(base, Abs());
      SetTotalConsistent(base, Abs(), k, total);
      buffers := buffers[k := buffers[k].(total := total)];
    }

    /** A complete datagram gives its buffer back. */
    method ReleaseBuffer(k: nat, ghost base: Bitmap)
      requires Valid(base) && k < |buffers|
      modifies this, pmm.memoryMap, pmm`used
      ensures Valid(base) && |old(Abs()).pool.v| <= MAX_BLOCKS && Abs() == Step(old(Abs()), Release(k))
    {
      hide Consistent, Unpack, Count, PmmPool.Step;
      ConsistentPool(base, Abs());
      ReleaseConsistent(base, Abs(), k);
      ConsistentPool(base, Step(Abs(), Release(k)));
      pmm.FreeBlocks(buffers[k].data, (65535 + 4095) / 4096);
      buffers := Without(buffers, k);
    }

    /** The loop of ipv4_cleanup, after which the table is forgotten. */
    method CleanupBuffers(ghost base: Bitmap)
      requires Valid(base)
      modifies this, pmm.memoryMap, pmm`used
      ensures pmm.Valid() && |old(Abs()).pool.v| <= MAX_BLOCKS && Abs() == Step(old(Abs()), Cleanup)
      ensures Valid(base) <==> Whole(old(buffers))
    {
      hide Consistent, Unpack, Count, PmmPool.Step, Whole;
      ghost var s := Abs();
      ConsistentPool(base, s);
      CleanupConsistentExactly(base, s);
      var i := 0;
      while i < |buffers|
        invariant 0 <= i <= |buffers| && buffers == s.buffers && pmm.Shape()
        invariant Cleaned(pmm.Abs(), buffers[i..]) == Cleaned(s.pool, s.buffers)
        invariant pmm.blocks == |s.pool.v|
      {
        assert buffers[i..][1..] == buffers[i + 1..];
        pmm.FreeBlocks(buffers[i].data, (buffers[i].total + 4095) / 4096);
        i := i + 1;
      }
      buffers := [];
      ZeroStays(base, s);
    }
  }

  /** Block 0 is no buffer's. */
  lemma {:induction false} ZeroStays(base: Bitmap, s: Shelf)
    requires Consistent(base, s)
    ensures |s.pool.v| > 0 && Cleaned(s.pool, s.buffers).v[0]
  {
    hide Union;
    CleanedMarks(s.pool, s.buffers);
    CleanedInside(s.buffers);
  }
}
