/** net_alloc_packet and net_free_packet (net/net.c): a packet is one block for its structure and
    one for its data; its data pointer and length change while headers are added and removed. */
module NetPackets {
  import opened Bits
  import opened Bitmaps
  import opened Common
  import opened Holdings
  import opened Pmm
  import opened PmmPool
  import opened Seqs

  /** A live packet: where its structure is, which block it got for its data, and its fields. */
  datatype Packet = Packet(home: u32, page: u32, data: u32, length: u32)

  /** The number of blocks a length names, in 32 bits. */
  function NamedBlocks(length: u32): u32 {
    Add32(length, 4095) / 4096
  }

  /** Block k is one of those a data pointer and a length name. */
  predicate Named(data: u32, length: u32, k: int) {
    data != 0 && data / 4096 <= k < data / 4096 + NamedBlocks(length)
  }

  /** net_free_packet on a packet with these fields. */
  function Freed(p: Pool, home: u32, data: u32, length: u32): (p': Pool)
    ensures |p'.v| == |p.v|
  {
    var p1 := if data == 0 then p else PmmPool.Step(p, FreeMany(data, NamedBlocks(length)));
    PmmPool.Step(p1, FreeOne(home))
  }

  /** The fields still name the packet's own data block, and no other block in use but perhaps the
      structure. */
  ghost predicate ClearsOwn(v: Bitmap, home: nat, page: nat, data: u32, length: u32) {
    Named(data, length, page) && forall k | 0 <= k < |v| && Named(data, length, k) && v[k] :: k == page || k == home
  }

  /** The fields still name the packet's own data block and no other block of memory. */
  ghost predicate NamesOwn(blocks: nat, page: nat, data: u32, length: u32) {
    Named(data, length, page) && forall k | 0 <= k < blocks && Named(data, length, k) :: k == page
  }

  lemma {:induction false} FreedAt(p: Pool, home: nat, data: u32, length: u32, k: nat)
    requires |p.v| <= MAX_BLOCKS && home < |p.v| && k < |p.v|
    ensures home * 4096 < U32
    ensures Freed(p, home * 4096, data, length).v[k] <==> p.v[k] && k != home && !Named(data, length, k)
  {
    BlockAddress(home);
  }

  /** Freeing clears exactly the packet's own two blocks if and only if its fields name its data block
      and no other block in use. */
  lemma {:induction false} ClearsExactly(p: Pool, home: nat, page: nat, data: u32, length: u32)
    requires |p.v| <= MAX_BLOCKS && home != page && InUse(p.v, home) && InUse(p.v, page)
    ensures Freed(p, home * 4096, data, length).v == Mark(p.v, {home, page}, false)
      <==> ClearsOwn(p.v, home, page, data, length)
  {
    var after := Freed(p, home * 4096, data, length).v;
    var wanted := Mark(p.v, {home, page}, false);
    forall k: nat | k < |p.v|
      ensures after[k] == wanted[k] <==>
        (k == page ==> Named(data, length, k)) && (p.v[k] && k != page && k != home ==> !Named(data, length, k))
    {
      FreedAt(p, home, data, length, k);
    }
    assert ClearsOwn(p.v, home, page, data, length) <==> forall k: nat | k < |p.v| :: after[k] == wanted[k];
    assert |after| == |wanted| == |p.v|;
  }

  /** The counter stays right if and only if every existing block that is freed was in use by then. */
  lemma {:induction false} FreeAgreesExactly(p: Pool, home: u32, data: u32, length: u32)
    requires |p.v| <= MAX_BLOCKS && Agrees(p)
    ensures Agrees(Freed(p, home, data, length)) <==>
      && (forall k | 0 <= k < |p.v| && Named(data, length, k) :: p.v[k])
      && (home / 4096 < |p.v| ==> p.v[home / 4096] && !Named(data, length, home / 4096))
  {
    hide Agrees;
    var n: nat := if data == 0 then 0 else NamedBlocks(length);
    var t := Given(p, data / 4096, n);
    assert t == if data == 0 then p else PmmPool.Step(p, FreeMany(data, NamedBlocks(length))) by {
      NoneGiven(p, data / 4096);
    }
    TwoFreesAgreeExactly(p, data / 4096, n, home / 4096);
    assert forall k :: Named(data, length, k) <==> data / 4096 <= k < data / 4096 + n;
  }

  lemma {:induction false} NoneGiven(p: Pool, start: nat)
    ensures Given(p, start, 0) == p
  {
    assert Fill(p.v, start, 0, false) == p.v;
  }

  /** Freeing gives back exactly the packet's own two blocks and keeps the counter right if and only
      if its fields still name its data block and no other block of memory; for lengths up to a page,
      if and only if the data pointer is in its page and the length is not zero. */
  lemma {:induction false} FreeRestoresExactly(p: Pool, home: nat, page: nat, data: u32, length: u32)
    requires |p.v| <= MAX_BLOCKS && Agrees(p) && home != page && InUse(p.v, home) && InUse(p.v, page)
    ensures var p' := Freed(p, home * 4096, data, length);
      p'.v == Mark(p.v, {home, page}, false) && Agrees(p') <==> NamesOwn(|p.v|, page, data, length)
    ensures length <= 4096 ==> (NamesOwn(|p.v|, page, data, length) <==> data / 4096 == page && length > 0)
    ensures length <= 4096 ==> (NamesOwn(|p.v|, page, data, length) <==> ClearsOwn(p.v, home, page, data, length))
  {
    hide Agrees, Freed, Mark;
    BlockAddress(home);
    ClearsExactly(p, home, page, data, length);
    FreeAgreesExactly(p, home * 4096, data, length);
  }

  predicate InUse(v: Bitmap, i: nat) {
    0 < i < |v| && v[i]
  }

  // ---------------------------------------------------------------- any number of packets

  /** The packets that were allocated and not freed, and the allocator: bitmap and counter. */
  datatype Stock = Stock(packets: seq<Packet>, pool: Pool)

  datatype Call = Alloc(size: u32) | Change(k: nat, data: u32, length: u32) | Free(k: nat)

  /** The allocator once the structure has its block. */
  function AfterHome(p: Pool): (p': Pool)
    ensures |p'.v| == |p.v|
  {
    PmmPool.Step(p, AllocOne)
  }

  predicate Served(p: Pool, size: u32) {
    size <= MAX_PACKET && FoundOne(p) != -1 && Found(AfterHome(p), NamedBlocks(size)) != -1
  }

  function NewPacket(p: Pool, size: u32): Packet
    requires |p.v| <= MAX_BLOCKS && Served(p, size)
  {
    TwoInside(p, size);
    var page: u32 := Found(AfterHome(p), NamedBlocks(size)) * 4096;
    Packet(FoundOne(p) * 4096, page, page, size)
  }

  /** A packet gets both its blocks, or the call leaves no trace. */
  function Allocated(p: Pool, size: u32): (p': Pool)
    ensures |p'.v| == |p.v|
  {
    if Served(p, size) then PmmPool.Step(AfterHome(p), AllocMany(NamedBlocks(size))) else p
  }

  function Step(s: Stock, c: Call): (s': Stock)
    requires |s.pool.v| <= MAX_BLOCKS
    ensures |s'.pool.v| == |s.pool.v|
  {
    match c
    case Alloc(size) =>
      if Served(s.pool, size) then Stock(s.packets + [NewPacket(s.pool, size)], Allocated(s.pool, size)) else s
    case Change(k, data, length) =>
      if k < |s.packets| then s.(packets := s.packets[k := s.packets[k].(data := data, length := length)]) else s
    case Free(k) =>
      if k < |s.packets|
      then Stock(Without(s.packets, k), Freed(s.pool, s.packets[k].home, s.packets[k].data, s.packets[k].length))
      else s
  }

  function Frames(p: Packet): set<nat> {
    {p.home / 4096, p.page / 4096}
  }

  function FramesOf(s: seq<Packet>): (fs: seq<set<nat>>)
    ensures |fs| == |s| && forall i | 0 <= i < |s| :: fs[i] == Frames(s[i])
  {
    if s == [] then [] else [Frames(s[0])] + FramesOf(s[1..])
  }

  predicate Aligned(p: Packet) {
    p.home % 4096 == 0 && p.page % 4096 == 0 && p.home != p.page
  }

  /** On top of `base` exactly the blocks of the live packets are in use, two for each, and the
      allocator's counter is right. */
  ghost predicate Consistent(base: Bitmap, s: Stock) {
    && 0 < |base| <= MAX_BLOCKS && base[0]
    && (forall i | 0 <= i < |s.packets| :: Aligned(s.packets[i]))
    && Conserved(base, s.pool.v, FramesOf(s.packets)) && Agrees(s.pool)
  }

  /** The two blocks of a packet lie in memory. */
  lemma {:induction false} TwoInside(p: Pool, size: u32)
    ensures FoundOne(p) >= -1 && (FoundOne(p) != -1 ==> FoundOne(p) < |p.v|)
    ensures Served(p, size) ==>
      0 < size && NamedBlocks(size) == 1 && 0 <= Found(AfterHome(p), NamedBlocks(size)) < |p.v|
  {
    FindsFree(p, 0);
    FindsFree(AfterHome(p), NamedBlocks(size));
  }

  /** A packet can be had exactly when its size is between 1 and 1518 and two blocks are free. */
  lemma {:induction false} PacketExactly(p: Pool, size: u32)
    requires Agrees(p) && |p.v| <= MAX_BLOCKS
    ensures Served(p, size) <==> 0 < size <= 1518 && Count(p.v) + 2 <= |p.v|
  {
    hide Search, Count;
    AgreeingCounter(p);
    SearchOne(p.v);
    if FoundOne(p) != -1 {
      FindsFree(p, 0);
      TakenAgrees(p, FoundOne(p), 1);
      CountFill(p.v, FoundOne(p), 1, true);
      AgreeingCounter(AfterHome(p));
      SearchOne(AfterHome(p).v);
    }
  }

  /** The two blocks a packet gets are different and were free. */
  lemma {:induction false} TwoTaken(p: Pool, size: u32)
    requires Served(p, size) && |p.v| <= MAX_BLOCKS
    ensures var home, page := FoundOne(p), Found(AfterHome(p), NamedBlocks(size));
      && 0 <= home < |p.v| && 0 <= page < |p.v| && home != page && !p.v[home] && !p.v[page]
      && Allocated(p, size).v == Mark(p.v, {home, page}, true)
      && (Agrees(p) ==> Agrees(Allocated(p, size)))
  {
    hide Search, Agrees;
    TwoInside(p, size);
    var home, page := FoundOne(p), Found(AfterHome(p), NamedBlocks(size));
    FindsFree(p, 0);
    FindsFree(AfterHome(p), NamedBlocks(size));
    assert !p.v[home] && !AfterHome(p).v[page];
    if Agrees(p) {
      TakenAgrees(p, home, 1);
      TakenAgrees(AfterHome(p), page, 1);
    }
  }

  lemma {:induction false} FramesAppended(s: seq<Packet>, p: Packet)
    ensures FramesOf(s + [p]) == FramesOf(s) + [Frames(p)]
  {}

  lemma {:induction false} FramesWithout(s: seq<Packet>, k: nat)
    requires k < |s|
    ensures FramesOf(Without(s, k)) == Without(FramesOf(s), k)
  {}

  lemma {:induction false} AllocConsistent(base: Bitmap, s: Stock, size: u32)
    requires Consistent(base, s) && |s.pool.v| <= MAX_BLOCKS
    ensures Consistent(base, Step(s, Alloc(size)))
  {
    hide Search, Conserved, Mark, FoundOne, Found, AfterHome, Agrees, Allocated, Served;
    if Served(s.pool, size) {
      TwoTaken(s.pool, size);
      var home, page, fs := FoundOne(s.pool), Found(AfterHome(s.pool), NamedBlocks(size)), FramesOf(s.packets);
      BlockAddress(home);
      BlockAddress(page);
      FramesAppended(s.packets, NewPacket(s.pool, size));
      GrantConserved(base, s.pool.v, fs, |fs|, {home, page});
      assert fs[..|fs|] + [{home, page}] + fs[|fs|..] == fs + [{home, page}];
    }
  }

  lemma {:induction false} ChangeConsistent(base: Bitmap, s: Stock, c: Call)
    requires Consistent(base, s) && |s.pool.v| <= MAX_BLOCKS && c.Change?
    ensures Consistent(base, Step(s, c))
  {
    hide Conserved, Agrees;
    assert FramesOf(Step(s, c).packets) == FramesOf(s.packets);
  }

  /** The packet a free call names can be freed without harm. */
  ghost predicate FreesOwn(s: Stock, c: Call) {
    c.Free? && c.k < |s.packets| ==>
      var p := s.packets[c.k]; NamesOwn(|s.pool.v|, p.page / 4096, p.data, p.length)
  }

  /** A live packet's blocks. */
  lemma {:induction false} PacketInUse(base: Bitmap, s: Stock, k: nat)
    requires Consistent(base, s) && k < |s.packets|
    ensures var p := s.packets[k];
      && Aligned(p) && p.home / 4096 != p.page / 4096 && p.home == p.home / 4096 * 4096
      && InUse(s.pool.v, p.home / 4096) && InUse(s.pool.v, p.page / 4096) && FramesOf(s.packets)[k] == Frames(p)
  {
    HeldIsUsed(base, s.pool.v, FramesOf(s.packets), k);
    var p := s.packets[k];
    assert Frames(p) == FramesOf(s.packets)[k] && p.home / 4096 in Frames(p) && p.page / 4096 in Frames(p);
  }

  /** Freeing a packet keeps bitmap and counter right if and only if its fields name its own data
      block alone; then exactly its two blocks come back. */
  lemma {:induction false} FreeConsistentExactly(base: Bitmap, s: Stock, k: nat)
    requires Consistent(base, s) && |s.pool.v| <= MAX_BLOCKS && k < |s.packets|
    ensures Consistent(base, Step(s, Free(k))) <==> FreesOwn(s, Free(k))
    ensures FreesOwn(s, Free(k)) ==> Step(s, Free(k)).pool.v == Mark(s.pool.v, Frames(s.packets[k]), false)
  {
    hide Mark, Freed, NamesOwn, ClearsOwn, Union, Conserved, Agrees;
    var p, v' := s.packets[k], Step(s, Free(k)).pool.v;
    PacketInUse(base, s, k);
    FreeRestoresExactly(s.pool, p.home / 4096, p.page / 4096, p.data, p.length);
    FramesWithout(s.packets, k);
    ReturnConserved(base, s.pool.v, FramesOf(s.packets), k);
    if Conserved(base, v', Without(FramesOf(s.packets), k)) {
      SameHoldings(base, v', Mark(s.pool.v, Frames(p), false), Without(FramesOf(s.packets), k));
    }
  }

  lemma {:induction false} SameHoldings(base: Bitmap, v: Bitmap, w: Bitmap, fs: seq<set<nat>>)
    requires Conserved(base, v, fs) && Conserved(base, w, fs)
    ensures v == w
  {}

  /** A new packet has the size asked for, points at the start of its block, and can be freed: then the
      allocator is what it was. */
  lemma {:induction false} AllocThenFree(base: Bitmap, s: Stock, size: u32)
    requires Consistent(base, s) && |s.pool.v| <= MAX_BLOCKS && Served(s.pool, size)
    ensures var t, n := Step(s, Alloc(size)), |s.packets|;
      && |t.packets| == n + 1 && t.packets[..n] == s.packets
      && t.packets[n].length == size && t.packets[n].data % 4096 == 0
      && FreesOwn(t, Free(n)) && Step(t, Free(n)) == s
  {
    hide Found, FoundOne, AfterHome, Freed, Allocated, Conserved, Agrees, Mark;
    var t, n := Step(s, Alloc(size)), |s.packets|;
    TwoTaken(s.pool, size);
    TwoInside(s.pool, size);
    ZeroInUse(base, s);
    var home, page := FoundOne(s.pool), Found(AfterHome(s.pool), NamedBlocks(size));
    BlockAddress(home);
    BlockAddress(page);
    AllocConsistent(base, s, size);
    FreeConsistentExactly(base, t, n);
    FreshNamesOwn(|t.pool.v|, page, size);
    assert Frames(t.packets[n]) == {home, page};
    var u := Step(t, Free(n));
    assert u.packets == s.packets;
    SamePool(base, s, u);
  }

  lemma {:induction false} FreshNamesOwn(blocks: nat, page: nat, size: u32)
    requires 0 < size <= MAX_PACKET && page * 4096 < U32
    ensures page > 0 ==> NamesOwn(blocks, page, page * 4096, size)
  {
    BlockAddress(page);
  }

  lemma {:induction false} ZeroInUse(base: Bitmap, s: Stock)
    requires Consistent(base, s)
    ensures |s.pool.v| == |base| > 0 && s.pool.v[0]
  {}

  lemma {:induction false} SamePool(base: Bitmap, s: Stock, u: Stock)
    requires Consistent(base, s) && Consistent(base, u) && u.packets == s.packets
    ensures u == s
  {
    SameHoldings(base, s.pool.v, u.pool.v, FramesOf(s.packets));
  }

  function Run(base: Bitmap, calls: seq<Call>): (s: Stock)
    requires |base| <= MAX_BLOCKS
    ensures |s.pool.v| == |base|
  {
    if calls == [] then Stock([], PoolOf(base)) else Step(Run(base, calls[..|calls| - 1]), calls[|calls| - 1])
  }

  /** Every packet is freed while its fields name its own data block alone. */
  ghost predicate AllFreesOwn(base: Bitmap, calls: seq<Call>)
    requires |base| <= MAX_BLOCKS
  {
    forall i | 0 <= i < |calls| :: FreesOwn(Run(base, calls[..i]), calls[i])
  }

  /** Bitmap and counter are right after every call of the run. */
  ghost predicate AlwaysConsistent(base: Bitmap, calls: seq<Call>)
    requires |base| <= MAX_BLOCKS
  {
    forall i | 0 <= i <= |calls| :: Consistent(base, Run(base, calls[..i]))
  }

  lemma {:induction false} StepConsistentExactly(base: Bitmap, s: Stock, c: Call)
    requires Consistent(base, s) && |s.pool.v| <= MAX_BLOCKS
    ensures Consistent(base, Step(s, c)) <==> FreesOwn(s, c)
  {
    hide Consistent, NamesOwn, Served, Freed;
    match c
    case Alloc(size) => AllocConsistent(base, s, size);
    case Change(_, _, _) => ChangeConsistent(base, s, c);
    case Free(k) => if k < |s.packets| { FreeConsistentExactly(base, s, k); }
  }

  /** Over every run of allocations, field changes and frees, with any number of live packets:
      exactly the live packets' blocks are in use and the counter is their number, after every call,
      if and only if every free found the packet's fields naming its own data block alone. */
  lemma {:induction false} RunConservesExactly(base: Bitmap, calls: seq<Call>)
    requires 0 < |base| <= MAX_BLOCKS && base[0]
    ensures AlwaysConsistent(base, calls) <==> AllFreesOwn(base, calls)
  {
    hide Consistent, FreesOwn, Step;
    if calls == [] {
      StartConsistent(base);
      assert calls[..0] == [];
      assert forall i | 0 <= i <= |calls| :: calls[..i] == [];
    } else {
      var n := |calls| - 1;
      RunConservesExactly(base, calls[..n]);
      assert forall i | 0 <= i <= n :: calls[..n][..i] == calls[..i];
      assert calls[..n + 1] == calls;
      if Consistent(base, Run(base, calls[..n])) {
        StepConsistentExactly(base, Run(base, calls[..n]), calls[n]);
      }
    }
  }

  lemma {:induction false} StartConsistent(base: Bitmap)
    requires 0 < |base| <= MAX_BLOCKS && base[0]
    ensures Consistent(base, Stock([], PoolOf(base)))
  {
    NoneConserved(base);
  }

  // ---------------------------------------------------------------- the functions of net/net.c

  class NetPacket {
    const home: u32        // where the structure is
    ghost const page: u32  // the block its data pointer started in
    var data: u32          // advanced and moved back as headers are removed and added
    var length: u32

    constructor (home: u32, data: u32, length: u32)
      ensures this.home == home && page == data && this.data == data && this.length == length
    {
      this.home, this.page, this.data, this.length := home, data, data, length;
    }

    ghost function Abs(): Packet
      reads this
    {
      Packet(home, page, data, length)
    }
  }

  class PacketPool {
    const pmm: Allocator

    constructor (pmm: Allocator)
      ensures this.pmm == pmm
    {
      this.pmm := pmm;
    }

    /** net_alloc_packet. */
    method AllocPacket(size: u32) returns (p: NetPacket?)
      requires pmm.Valid()
      modifies pmm.memoryMap, pmm`used
      ensures pmm.Valid() && |old(pmm.View())| <= MAX_BLOCKS
      ensures p != null <==> Served(old(pmm.Abs()), size)
      ensures p != null ==> fresh(p) && p.Abs() == NewPacket(old(pmm.Abs()), size)
      ensures pmm.Abs() == Allocated(old(pmm.Abs()), size)
    {
      hide Search, Fill, Unpack, Count, PmmPool.Step, Found, FoundOne;
      p := null;
      if size > MAX_PACKET {
        return;
      }
      ghost var s := pmm.Abs();
      var home := pmm.AllocBlock();
      if home == 0 {
        return;
      }
      HomeUndoes(s);
      var data := pmm.AllocBlocks((size + 4095) / 4096);
      if data == 0 {
        pmm.FreeBlock(home);
        return;
      }
      TwoInside(s, size);
      p := new NetPacket(home, data, size);
    }

    /** net_free_packet, on any fields whatever; counter and bitmap keep agreeing if and only if all
        the existing blocks it frees are in use, none twice. */
    method FreePacket(p: NetPacket)
      requires pmm.Shape()
      modifies pmm.memoryMap, pmm`used
      ensures pmm.Abs() == Freed(old(pmm.Abs()), p.home, p.data, p.length)
      ensures old(pmm.Valid()) ==> (pmm.Valid() <==> FreesUsed(old(pmm.View()), p.home, p.data, p.length))
    {
      hide Search, Unpack, Count, PmmPool.Step;
      ghost var s := pmm.Abs();
      if p.data != 0 {
        pmm.FreeBlocks(p.data, Add32(p.length, 4095) / 4096);
      }
      pmm.FreeBlock(p.home);
      if old(pmm.Valid()) {
        FreeAgreesExactly(s, p.home, p.data, p.length);
        ZeroAfterFrees(s, p.home, p.data, p.length);
      }
    }
  }

  /** Every existing block the fields name is in use, and so is the structure, which they do not name;
      none of them is block 0. */
  ghost predicate FreesUsed(v: Bitmap, home: u32, data: u32, length: u32) {
    && (forall k | 0 <= k < |v| && Named(data, length, k) :: 0 < k && v[k])
    && (home / 4096 < |v| ==> InUse(v, home / 4096) && !Named(data, length, home / 4096))
  }

  lemma {:induction false} ZeroAfterFrees(p: Pool, home: u32, data: u32, length: u32)
    requires |p.v| > 0 && p.v[0]
    ensures Freed(p, home, data, length).v[0] <==> home / 4096 != 0 && !Named(data, length, 0)
  {}

  /** The structure given back, when there is no block for the data. */
  lemma {:induction false} HomeUndoes(p: Pool)
    requires |p.v| <= MAX_BLOCKS && FoundOne(p) != -1
    ensures 0 <= FoundOne(p) * 4096 < U32
    ensures PmmPool.Step(AfterHome(p), FreeOne(FoundOne(p) * 4096)) == p
  {
    FindsFree(p, 0);
    BlockAddress(FoundOne(p));
    GivenUndoes(p, FoundOne(p), 1);
  }
}
