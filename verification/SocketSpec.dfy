/** What creating, closing and cleaning up sockets (net/udp.c) and connections (net/tcp.c) does to
    their list and to the allocator: a structure of one block and n buffers of equal size. */
module SocketSpec {
  import opened Bits
  import opened Bitmaps
  import opened Holdings
  import opened Pmm
  import opened PmmPool
  import opened Seqs

  const LIMIT: nat := 256 // MAX_UDP_SOCKETS and MAX_TCP_CONNECTIONS

  /** A list element: the structure's address and those of its buffers, `pages` blocks each. */
  datatype Holder<K> = Holder(key: K, pages: u32, home: u32, bufs: seq<u32>)

  /** The list, and the allocator: bitmap and counter. */
  datatype State<K> = State(list: seq<Holder<K>>, pool: Pool)

  /** The blocks of a buffer of the given size in bytes. */
  function Pages(size: u16): u32 {
    (size + 4095) / 4096
  }

  function BufFrames(bufs: seq<u32>, pages: nat): set<nat> {
    if bufs == [] then {} else Blocks(bufs[0] / 4096, pages) + BufFrames(bufs[1..], pages)
  }

  /** No two buffers share a block. */
  ghost predicate BufsApart(bufs: seq<u32>, pages: nat) {
    bufs == [] || (Blocks(bufs[0] / 4096, pages) !! BufFrames(bufs[1..], pages) && BufsApart(bufs[1..], pages))
  }

  ghost predicate PartsApart<K>(h: Holder<K>) {
    Blocks(h.home / 4096, 1) !! BufFrames(h.bufs, h.pages) && BufsApart(h.bufs, h.pages)
  }

  function Frames<K>(h: Holder<K>): set<nat> {
    Blocks(h.home / 4096, 1) + BufFrames(h.bufs, h.pages)
  }

  function FramesOf<K>(s: seq<Holder<K>>): (fs: seq<set<nat>>)
    ensures |fs| == |s| && forall i | 0 <= i < |s| :: fs[i] == Frames(s[i])
  {
    if s == [] then [] else [Frames(s[0])] + FramesOf(s[1..])
  }

  datatype Grant = Refused | Granted(bufs: seq<u32>, pool: Pool)

  /** n calls of pmm_alloc_blocks for `pages` blocks, one after the other. */
  function Take(p: Pool, pages: u32, n: nat): (g: Grant)
    requires |p.v| <= MAX_BLOCKS
    ensures g.Granted? ==> |g.pool.v| == |p.v|
    decreases n
  {
    if n == 0 then Granted([], p)
    else if Found(p, pages) == -1 then Refused
    else
      var rest := Take(PmmPool.Step(p, AllocMany(pages)), pages, n - 1);
      if rest.Refused? then Refused else Granted([Found(p, pages) * 4096] + rest.bufs, rest.pool)
  }

  /** The buffers freed one after the other. */
  function Give(p: Pool, bufs: seq<u32>, pages: u32): (r: Pool)
    ensures |r.v| == |p.v|
    decreases |bufs|
  {
    if bufs == [] then p else Give(PmmPool.Step(p, FreeMany(bufs[0], pages)), bufs[1..], pages)
  }

  /** A request the allocator can meet in full takes effect; any other leaves no trace. */
  function Create<K>(s: State<K>, key: K, pages: u32, n: nat): (s': State<K>)
    requires |s.pool.v| <= MAX_BLOCKS
    ensures |s'.pool.v| == |s.pool.v|
  {
    var a := Found(s.pool, 1);
    if a == -1 then s
    else
      var g := Take(PmmPool.Step(s.pool, AllocMany(1)), pages, n);
      if g.Refused? then s else State([Holder(key, pages, a * 4096, g.bufs)] + s.list, g.pool)
  }

  /** Freeing an element: its buffers, then its structure. */
  function Released<K>(p: Pool, h: Holder<K>): (p': Pool)
    ensures |p'.v| == |p.v|
  {
    PmmPool.Step(Give(p, h.bufs, h.pages), FreeMany(h.home, 1))
  }

  function Close<K>(s: State<K>, k: nat): (s': State<K>)
    requires k < |s.list|
    ensures |s'.pool.v| == |s.pool.v|
  {
    State(Without(s.list, k), Released(s.pool, s.list[k]))
  }

  ghost predicate HasKey<K>(s: seq<Holder<K>>, key: K) {
    exists i | 0 <= i < |s| :: s[i].key == key
  }

  ghost predicate KeysDistinct<K>(s: seq<Holder<K>>) {
    forall i, j | 0 <= i < j < |s| :: s[i].key != s[j].key
  }

  /** The list owns exactly the blocks of its elements on top of `base`, and the allocator's counter is
      right; with `unique`, no two elements have the same key. */
  ghost predicate Consistent<K>(base: Bitmap, s: State<K>, unique: bool) {
    && 0 < |base| <= MAX_BLOCKS && base[0]
    && |s.list| <= LIMIT && (unique ==> KeysDistinct(s.list))
    && (forall i | 0 <= i < |s.list| :: PartsApart(s.list[i]))
    && Conserved(base, s.pool.v, FramesOf(s.list)) && Agrees(s.pool)
  }

  lemma {:induction false} BufInside(bufs: seq<u32>, pages: nat, a: nat)
    requires a < |bufs|
    ensures Blocks(bufs[a] / 4096, pages) <= BufFrames(bufs, pages)
    decreases |bufs|
  {
    if a > 0 {
      BufInside(bufs[1..], pages, a - 1);
    }
  }

  lemma {:induction false} BufsPairwise(bufs: seq<u32>, pages: nat, a: nat, b: nat)
    requires BufsApart(bufs, pages) && a < b < |bufs|
    ensures Blocks(bufs[a] / 4096, pages) !! Blocks(bufs[b] / 4096, pages)
    decreases |bufs|
  {
    if a == 0 {
      BufInside(bufs[1..], pages, b - 1);
    } else {
      BufsPairwise(bufs[1..], pages, a - 1, b - 1);
    }
  }

  /** Two different buffers, of one element or of two, have no block in common, and no buffer shares
      a block with a structure: what is written into one is never read from another. */
  lemma {:induction false} BuffersApart<K>(base: Bitmap, s: State<K>, unique: bool, i: nat, a: nat, j: nat, b: nat)
    requires Consistent(base, s, unique) && i <= j < |s.list| && a < |s.list[i].bufs| && b < |s.list[j].bufs|
    ensures i < j || a < b ==>
      Blocks(s.list[i].bufs[a] / 4096, s.list[i].pages) !! Blocks(s.list[j].bufs[b] / 4096, s.list[j].pages)
    ensures Blocks(s.list[i].bufs[a] / 4096, s.list[i].pages) !! Blocks(s.list[j].home / 4096, 1)
    ensures Blocks(s.list[j].bufs[b] / 4096, s.list[j].pages) !! Blocks(s.list[i].home / 4096, 1)
  {
    hide BufFrames, BufsApart, Blocks, Union;
    BufInside(s.list[i].bufs, s.list[i].pages, a);
    BufInside(s.list[j].bufs, s.list[j].pages, b);
    assert PartsApart(s.list[i]) && PartsApart(s.list[j]);
    if i < j {
      assert FramesOf(s.list)[i] !! FramesOf(s.list)[j];
    } else if a < b {
      BufsPairwise(s.list[i].bufs, s.list[i].pages, a, b);
    }
  }

  lemma {:induction false} ConsistentSize<K>(base: Bitmap, s: State<K>, unique: bool)
    requires Consistent(base, s, unique)
    ensures |s.pool.v| == |base| <= MAX_BLOCKS
  {}

  lemma {:induction false} ConsistentPool<K>(base: Bitmap, s: State<K>, unique: bool)
    requires Consistent(base, s, unique)
    ensures Agrees(s.pool) && |s.pool.v| > 0 && s.pool.v[0]
  {}

  lemma {:induction false} ConsistentLimit<K>(base: Bitmap, s: State<K>, unique: bool)
    requires Consistent(base, s, unique)
    ensures |s.list| <= LIMIT
  {}

  lemma {:induction false} TakeMarks(p: Pool, pages: u32, n: nat)
    requires |p.v| <= MAX_BLOCKS && Take(p, pages, n).Granted?
    ensures var g := Take(p, pages, n);
      && |g.bufs| == n && AllAre(p.v, BufFrames(g.bufs, pages), false)
      && BufsApart(g.bufs, pages)
      && g.pool.v == Mark(p.v, BufFrames(g.bufs, pages), true)
      && (Agrees(p) ==> Agrees(g.pool))
    decreases n
  {
    hide Found, Fill, Agrees;
    if n > 0 {
      var r, p' := Found(p, pages), PmmPool.Step(p, AllocMany(pages));
      FoundInside(p, pages);
      TakenMarks(p, pages);
      BlockAddress(r);
      var rest := Take(p', pages, n - 1);
      TakeMarks(p', pages, n - 1);
      assert ([r * 4096] + rest.bufs)[1..] == rest.bufs;
      MarkTwice(p.v, Blocks(r, pages), BufFrames(rest.bufs, pages), true);
    }
  }

  lemma {:induction false} GiveMarks(p: Pool, bufs: seq<u32>, pages: u32)
    requires |p.v| <= MAX_BLOCKS
    ensures Give(p, bufs, pages).v == Mark(p.v, BufFrames(bufs, pages), false)
    ensures Agrees(p) && BufsApart(bufs, pages) && AllAre(p.v, BufFrames(bufs, pages), true)
      ==> Agrees(Give(p, bufs, pages))
    decreases |bufs|
  {
    hide PmmPool.Step, Agrees;
    if bufs != [] {
      GivenMarks(p, bufs[0], pages);
      GiveMarks(PmmPool.Step(p, FreeMany(bufs[0], pages)), bufs[1..], pages);
      MarkTwice(p.v, Blocks(bufs[0] / 4096, pages), BufFrames(bufs[1..], pages), false);
    }
  }

  lemma {:induction false} FramesCons<K>(h: Holder<K>, s: seq<Holder<K>>)
    ensures FramesOf([h] + s) == [Frames(h)] + FramesOf(s)
  {
    assert ([h] + s)[1..] == s;
  }

  lemma {:induction false} FramesWithout<K>(s: seq<Holder<K>>, k: nat)
    requires k < |s|
    ensures FramesOf(Without(s, k)) == Without(FramesOf(s), k)
  {
    hide FramesOf, Frames;
  }

  /** Where a new element's blocks come from. */
  lemma {:induction false} CreateMarks<K>(s: State<K>, key: K, pages: u32, n: nat)
    requires |s.pool.v| <= MAX_BLOCKS && Create(s, key, pages, n).list != s.list
    ensures var s' := Create(s, key, pages, n);
      && s'.list != [] && s'.list == [s'.list[0]] + s.list && s'.list[0].key == key && |s'.list[0].bufs| == n
      && PartsApart(s'.list[0])
      && AllAre(s.pool.v, Frames(s'.list[0]), false)
      && s'.pool.v == Mark(s.pool.v, Frames(s'.list[0]), true)
      && (Agrees(s.pool) ==> Agrees(s'.pool))
  {
    hide Found, Fill, Take, Agrees, PmmPool.Step;
    var a := Found(s.pool, 1);
    FoundInside(s.pool, 1);
    TakenMarks(s.pool, 1);
    BlockAddress(a);
    var p1 := PmmPool.Step(s.pool, AllocMany(1));
    TakeMarks(p1, pages, n);
    MarkTwice(s.pool.v, Blocks(a, 1), BufFrames(Take(p1, pages, n).bufs, pages), true);
  }

  /** Creation adds exactly one element, owning blocks nobody had, or changes nothing at all. */
  lemma {:induction false} CreateConsistent<K>(base: Bitmap, s: State<K>, unique: bool, key: K, pages: u32, n: nat)
    requires Consistent(base, s, unique) && |s.pool.v| <= MAX_BLOCKS
    requires |s.list| < LIMIT && (unique ==> !HasKey(s.list, key))
    ensures Consistent(base, Create(s, key, pages, n), unique)
    ensures Create(s, key, pages, n).list == s.list ==> Create(s, key, pages, n) == s
  {
    hide Found, Take, Conserved, Agrees;
    var s' := Create(s, key, pages, n);
    if s' != s {
      CreateGrows(s, key, pages, n);
      hide Create;
      CreateMarks(s, key, pages, n);
      FramesCons(s'.list[0], s.list);
      var fs := FramesOf(s.list);
      GrantConserved(base, s.pool.v, fs, 0, Frames(s'.list[0]));
      assert fs[..0] + [Frames(s'.list[0])] + fs[0..] == [Frames(s'.list[0])] + fs;
    }
  }

  lemma {:induction false} CreateGrows<K>(s: State<K>, key: K, pages: u32, n: nat)
    requires |s.pool.v| <= MAX_BLOCKS && Create(s, key, pages, n) != s
    ensures |Create(s, key, pages, n).list| == |s.list| + 1
  {}

  lemma {:induction false} CloseMarks<K>(s: State<K>, k: nat)
    requires k < |s.list| && |s.pool.v| <= MAX_BLOCKS
    ensures Close(s, k).pool.v == Mark(s.pool.v, Frames(s.list[k]), false)
    ensures Agrees(s.pool) && PartsApart(s.list[k]) && AllAre(s.pool.v, Frames(s.list[k]), true)
      ==> Agrees(Close(s, k).pool)
  {
    hide PmmPool.Step, Agrees, Give, BufFrames, BufsApart;
    var h := s.list[k];
    GiveMarks(s.pool, h.bufs, h.pages);
    var p := Give(s.pool, h.bufs, h.pages);
    GivenMarks(p, h.home, 1);
    MarkTwice(s.pool.v, BufFrames(h.bufs, h.pages), Blocks(h.home / 4096, 1), false);
    assert BufFrames(h.bufs, h.pages) + Blocks(h.home / 4096, 1) == Frames(h);
  }

  lemma {:induction false} KeysWithout<K>(s: seq<Holder<K>>, k: nat)
    requires KeysDistinct(s) && k < |s|
    ensures KeysDistinct(Without(s, k))
  {
    forall i, j | 0 <= i < j < |s| - 1
      ensures Without(s, k)[i].key != Without(s, k)[j].key
    {
      assert s[if i < k then i else i + 1].key != s[if j < k then j else j + 1].key;
    }
  }

  /** Closing returns exactly the element's own blocks. */
  lemma {:induction false} CloseConsistent<K>(base: Bitmap, s: State<K>, unique: bool, k: nat)
    requires Consistent(base, s, unique) && k < |s.list|
    ensures Consistent(base, Close(s, k), unique)
    ensures Close(s, k).pool.v == Mark(s.pool.v, Frames(s.list[k]), false)
    ensures PartsApart(s.list[k])
    ensures forall i | i in Frames(s.list[k]) :: 0 < i < |s.pool.v| && s.pool.v[i]
  {
    hide Conserved, KeysDistinct, Frames, Agrees;
    ConsistentSize(base, s, unique);
    CloseMarks(s, k);
    FramesWithout(s.list, k);
    ReturnConserved(base, s.pool.v, FramesOf(s.list), k);
    HeldIsUsed(base, s.pool.v, FramesOf(s.list), k);
    if unique {
      KeysWithout(s.list, k);
    }
  }

  /** Closing from the head until the list is empty gives every block back. */
  function CloseAll<K>(s: State<K>): (s': State<K>)
    ensures |s'.pool.v| == |s.pool.v|
    decreases |s.list|
  {
    if s.list == [] then s else CloseAll(Close(s, 0))
  }

  lemma {:induction false} CloseAllRestores<K>(base: Bitmap, s: State<K>, unique: bool)
    requires Consistent(base, s, unique)
    ensures CloseAll(s) == State([], PoolOf(base))
    decreases |s.list|
  {
    if s.list == [] {
      assert s.pool.v == base;
    } else {
      hide Consistent;
      CloseConsistent(base, s, unique, 0);
      CloseAllRestores(base, Close(s, 0), unique);
    }
  }

  lemma {:induction false} TakeOne(p: Pool, pages: u32)
    requires |p.v| <= MAX_BLOCKS
    ensures Found(p, pages) >= -1 && (Found(p, pages) != -1 ==> Found(p, pages) + pages <= |p.v|)
    ensures Take(p, pages, 1) == if Found(p, pages) == -1 then Refused
      else Granted([Found(p, pages) * 4096], PmmPool.Step(p, AllocMany(pages)))
  {
    hide Found;
    FoundInside(p, pages);
    if Found(p, pages) != -1 {
      var p1 := PmmPool.Step(p, AllocMany(pages));
      assert Take(p1, pages, 0) == Granted([], p1);
    }
  }

  // ---------------------------------------------------------------- whole runs

  datatype Call<K> = CreateCall(key: K, pages: u32) | CloseCall(k: nat) | Cleanup

  /** Creation is refused at the limit and, with `unique`, for a key in use. */
  ghost predicate Admitted<K>(s: State<K>, key: K, unique: bool) {
    |s.list| < LIMIT && (unique ==> !HasKey(s.list, key))
  }

  ghost function Step<K>(s: State<K>, c: Call<K>, n: nat, unique: bool): (s': State<K>)
    requires |s.pool.v| <= MAX_BLOCKS
    ensures |s'.pool.v| == |s.pool.v|
  {
    match c
    case CreateCall(key, pages) => if Admitted(s, key, unique) then Create(s, key, pages, n) else s
    case CloseCall(k) => if k < |s.list| then Close(s, k) else s
    case Cleanup => CloseAll(s)
  }

  lemma {:induction false} StepConsistent<K>(base: Bitmap, s: State<K>, c: Call<K>, n: nat, unique: bool)
    requires Consistent(base, s, unique) && |s.pool.v| <= MAX_BLOCKS
    ensures Consistent(base, Step(s, c, n, unique), unique)
  {
    match c
    case CreateCall(key, pages) =>
      hide Consistent, Create;
      if Admitted(s, key, unique) {
        CreateConsistent(base, s, unique, key, pages, n);
      }
    case CloseCall(k) =>
      hide Consistent, Close;
      if k < |s.list| {
        CloseConsistent(base, s, unique, k);
      }
    case Cleanup =>
      CloseAllRestores(base, s, unique);
      NoneConserved(base);
  }

  ghost function Run<K>(base: Bitmap, calls: seq<Call<K>>, n: nat, unique: bool): (s: State<K>)
    requires |base| <= MAX_BLOCKS
    ensures |s.pool.v| == |base|
    decreases |calls|
  {
    if calls == [] then State([], PoolOf(base))
    else Step(Run(base, calls[..|calls| - 1], n, unique), calls[|calls| - 1], n, unique)
  }

  /** Creation succeeds exactly below 256 elements, with a key not in use where that is checked, and
      when the allocator grants the structure and then every buffer. */
  lemma {:induction false} CreatedExactly<K>(s: State<K>, key: K, pages: u32, n: nat, unique: bool)
    requires |s.pool.v| <= MAX_BLOCKS
    ensures Step(s, CreateCall(key, pages), n, unique).list != s.list <==>
      && |s.list| < 256 && (unique ==> forall i | 0 <= i < |s.list| :: s.list[i].key != key)
      && Found(s.pool, 1) != -1 && Take(PmmPool.Step(s.pool, AllocMany(1)), pages, n).Granted?
  {
    hide Found, Take, PmmPool.Step;
    var s' := Create(s, key, pages, n);
    assert |s'.list| != |s.list| ==> s'.list != s.list;
  }

  /** A buffer gets as many blocks as its size needs, and no more. */
  lemma {:induction false} PagesExactly(size: u16)
    ensures size as int <= 4096 * Pages(size) && 4096 * (Pages(size) as int - 1) < size as int
  {}

  /** Conservation over every sequence of creations (failed ones included), closings and cleanups:
      the blocks in use beyond `base` are exactly the blocks of the live elements, each with one
      owner; keys stay distinct where creation checks them; cleaning up restores `base`. */
  lemma {:induction false} RunConserves<K>(base: Bitmap, calls: seq<Call<K>>, n: nat, unique: bool)
    requires 0 < |base| <= MAX_BLOCKS && base[0]
    ensures Consistent(base, Run(base, calls, n, unique), unique)
    ensures Run(base, calls, n, unique).list == [] ==> Run(base, calls, n, unique).pool == PoolOf(base)
    ensures CloseAll(Run(base, calls, n, unique)) == State([], PoolOf(base))
    decreases |calls|
  {
    hide Consistent, Step;
    if calls == [] {
      NoneConsistent<K>(base, unique);
    } else {
      RunConserves(base, calls[..|calls| - 1], n, unique);
      StepConsistent(base, Run(base, calls[..|calls| - 1], n, unique), calls[|calls| - 1], n, unique);
    }
    CloseAllRestores(base, Run(base, calls, n, unique), unique);
  }

  lemma {:induction false} NoneConsistent<K>(base: Bitmap, unique: bool)
    requires 0 < |base| <= MAX_BLOCKS && base[0]
    ensures Consistent<K>(base, State([], PoolOf(base)), unique)
  {
    NoneConserved(base);
  }
}
