/** The physical memory manager (mem/pmm.c) on values: the bitmap with its redundant 32-bit counter,
    under any calls at all, frees of blocks that are not in use included. */
module PmmPool {
  import opened Bits
  import opened Bitmaps

  datatype Pool = Pool(v: Bitmap, used: u32)

  /** The block pmm_alloc_block marks, or -1 when it refuses. */
  function FoundOne(s: Pool): int {
    if s.used >= |s.v| then -1 else Search(s.v, 1, 0)
  }

  /** The first of the n blocks pmm_alloc_blocks marks, or -1 when it refuses. */
  function Found(s: Pool, n: u32): int {
    if n == 0 || Add32(s.used, n) > |s.v| then -1 else Search(s.v, n, 0)
  }

  function Taken(s: Pool, start: nat, n: nat): Pool {
    Pool(Fill(s.v, start, n, true), (s.used + n) % U32)
  }

  /** How many of the blocks [start, start + n) exist. */
  function Existing(size: nat, start: nat, n: nat): nat {
    if start >= size then 0 else if start + n <= size then n else size - start
  }

  /** The counter goes down for every existing block of the range, in use or not. */
  function Given(s: Pool, start: nat, n: nat): Pool {
    Pool(Fill(s.v, start, n, false), (s.used - Existing(|s.v|, start, n)) % U32)
  }

  datatype Call = AllocOne | AllocMany(n: u32) | FreeOne(p: u32) | FreeMany(p: u32, n: u32)

  function Step(s: Pool, c: Call): (s': Pool)
    ensures |s'.v| == |s.v|
  {
    match c
    case AllocOne => if FoundOne(s) == -1 then s else Taken(s, FoundOne(s), 1)
    case AllocMany(n) => if Found(s, n) == -1 then s else Taken(s, Found(s, n), n)
    case FreeOne(p) => Given(s, p / 4096, 1)
    case FreeMany(p, n) => Given(s, p / 4096, n)
  }

  /** The existing blocks of [start, start + n) that are not in use. */
  function Unused(v: Bitmap, start: nat, n: nat): nat {
    if n == 0 then 0
    else Unused(v, start, n - 1) + (if start + n - 1 < |v| && !v[start + n - 1] then 1 else 0)
  }

  lemma {:induction false} UnusedRange(v: Bitmap, start: nat, n: nat)
    ensures Unused(v, start, n) <= Existing(|v|, start, n)
    ensures Unused(v, start, n) == 0 <==> forall k | start <= k < start + n && k < |v| :: v[k]
  {
    if n > 0 {
      UnusedRange(v, start, n - 1);
    }
  }

  /** Clearing a range takes its blocks in use out of the population count. */
  lemma {:induction false} CountCleared(v: Bitmap, start: nat, n: nat)
    ensures Count(Fill(v, start, n, false)) == Count(v) - Existing(|v|, start, n) + Unused(v, start, n)
  {
    if n == 0 {
      assert Fill(v, start, n, false) == v;
    } else {
      CountCleared(v, start, n - 1);
      var w := Fill(v, start, n - 1, false);
      var k := start + n - 1;
      if k < |v| {
        assert Fill(v, start, n, false) == w[k := false];
        CountUpdate(w, k, false);
      } else {
        assert Fill(v, start, n, false) == w;
      }
    }
  }

  /** The frees of blocks not in use that a call performs. */
  function Strays(s: Pool, c: Call): nat {
    match c
    case FreeOne(p) => Unused(s.v, p / 4096, 1)
    case FreeMany(p, n) => Unused(s.v, p / 4096, n)
    case _ => 0
  }

  /** A run of calls, and how many frees of blocks not in use it contained. */
  datatype Trace = Trace(pool: Pool, strays: nat)

  function Run(s: Pool, calls: seq<Call>): (t: Trace)
    ensures |t.pool.v| == |s.v|
  {
    if calls == [] then Trace(s, 0)
    else
      var t := Run(s, calls[..|calls| - 1]);
      Trace(Step(t.pool, calls[|calls| - 1]), t.strays + Strays(t.pool, calls[|calls| - 1]))
  }

  lemma {:induction false} ModShift(x: int, y: int, d: int)
    requires x % U32 == y % U32
    ensures (x + d) % U32 == (y + d) % U32
    ensures (x % U32 + d) % U32 == (x + d) % U32
  {
    assert x + d == y + d + U32 * (x / U32 - y / U32);
    assert x + d == x % U32 + d + U32 * (x / U32);
  }

  /** Marking n free blocks, or clearing e blocks of which u were not in use. */
  lemma {:induction false} CountsMove(used: int, strays: int, count: int, d: int, u: int)
    requires (used + strays) % U32 == count % U32
    ensures ((used + d) % U32 + strays + u) % U32 == (count + d + u) % U32
  {
    ModShift(used + d, used + d, strays + u);
    ModShift(used + strays, count, d + u);
  }

  lemma {:induction false} StepCounts(s: Pool, c: Call, strays: nat)
    requires (s.used + strays) % U32 == Count(s.v) % U32
    ensures (Step(s, c).used + strays + Strays(s, c)) % U32 == Count(Step(s, c).v) % U32
  {
    hide Search, Count, Fill, Unused, Existing;
    match c
    case AllocOne =>
      if FoundOne(s) != -1 {
        TakenCounts(s, FoundOne(s), 1, strays);
      }
    case AllocMany(n) =>
      if Found(s, n) != -1 {
        TakenCounts(s, Found(s, n), n, strays);
      }
    case FreeOne(p) => GivenCounts(s, p / 4096, 1, strays);
    case FreeMany(p, n) => GivenCounts(s, p / 4096, n, strays);
  }

  lemma {:induction false} TakenCounts(s: Pool, start: nat, n: nat, strays: nat)
    requires (s.used + strays) % U32 == Count(s.v) % U32 && FreeRun(s.v, start, n)
    ensures (Taken(s, start, n).used + strays) % U32 == Count(Taken(s, start, n).v) % U32
  {
    CountFill(s.v, start, n, true);
    CountsMove(s.used, strays, Count(s.v), n, 0);
  }

  lemma {:induction false} GivenCounts(s: Pool, start: nat, n: nat, strays: nat)
    requires (s.used + strays) % U32 == Count(s.v) % U32
    ensures (Given(s, start, n).used + strays + Unused(s.v, start, n)) % U32 == Count(Given(s, start, n).v) % U32
  {
    CountCleared(s.v, start, n);
    CountsMove(s.used, strays, Count(s.v), 0 - Existing(|s.v|, start, n), Unused(s.v, start, n));
  }

  /** Over every run of arbitrary calls the counter lags behind the bitmap by the number of frees of
      blocks that were not in use, modulo 2^32; so it agrees if and only if that number is 0 there. */
  lemma {:induction false} CounterAgreesExactly(s: Pool, calls: seq<Call>)
    requires Agrees(s) && |s.v| < U32
    ensures var t := Run(s, calls);
      && (t.pool.used + t.strays) % U32 == Count(t.pool.v)
      && (Agrees(t.pool) <==> t.strays % U32 == 0)
  {
    hide Count, Step, Strays;
    if calls != [] {
      var t := Run(s, calls[..|calls| - 1]);
      CounterAgreesExactly(s, calls[..|calls| - 1]);
      StepCounts(t.pool, calls[|calls| - 1], t.strays);
    }
  }

  /** The counter is the number of blocks in use. */
  predicate Agrees(s: Pool) {
    s.used == Count(s.v)
  }

  /** The allocator with exactly these blocks in use and its counter right. */
  function PoolOf(v: Bitmap): (p: Pool)
    requires |v| < U32
    ensures Agrees(p)
  {
    Pool(v, Count(v))
  }

  /** With an agreeing counter its test refuses nothing that a search would find, and the search for
      one block succeeds whenever the test has. */
  lemma {:induction false} AgreeingCounter(s: Pool)
    requires Agrees(s) && |s.v| <= U32 / 2
    ensures FoundOne(s) == Search(s.v, 1, 0)
    ensures s.used < |s.v| <==> FoundOne(s) >= 0
    ensures forall n: u32 :: Found(s, n) == if n == 0 then -1 else Search(s.v, n, 0)
  {
    hide Search, Count;
    SearchOne(s.v);
    forall n: u32
      ensures Found(s, n) == if n == 0 then -1 else Search(s.v, n, 0)
    {
      SearchFits(s.v, n);
    }
  }

  lemma {:induction false} SearchSucceeds(v: Bitmap, n: nat)
    ensures Search(v, n, 0) >= 0 <==> exists i :: FreeRun(v, i, n)
    ensures Search(v, n, 0) >= -1
  {
    hide Search;
    SearchIsFirstFit(v, n, Search(v, n, 0));
    assert FirstFit(v, n, Search(v, n, 0));
  }

  /** When a call takes blocks, whatever the counter says: the test is on the counter, the search on
      the bitmap. A counter that has run below zero refuses every single block, and a call for
      several, whose sum wraps, may still succeed. */
  lemma {:induction false} GrantsExactly(s: Pool, n: u32)
    ensures FoundOne(s) >= 0 <==> s.used < |s.v| && exists i :: 0 <= i < |s.v| && !s.v[i]
    ensures Found(s, n) >= 0 <==> n > 0 && (s.used + n) % 0x1_0000_0000 <= |s.v| && exists i :: FreeRun(s.v, i, n)
    ensures s.used == 0xFFFF_FFFF && |s.v| < 0xFFFF_FFFF ==>
              FoundOne(s) == -1 && (Found(s, 1) >= 0 <==> exists i :: 0 <= i < |s.v| && !s.v[i])
  {
    hide Search;
    SearchSucceeds(s.v, 1);
    SearchSucceeds(s.v, n);
    if i :| 0 <= i < |s.v| && !s.v[i] {
      assert FreeRun(s.v, i, 1);
    }
    if i :| FreeRun(s.v, i, 1) {
      assert !s.v[i];
    }
  }

  /** What either search finds is a free run. */
  lemma {:induction false} FindsFree(s: Pool, n: u32)
    ensures Found(s, n) != -1 ==> n > 0 && FreeRun(s.v, Found(s, n), n)
    ensures FoundOne(s) != -1 ==> FreeRun(s.v, FoundOne(s), 1)
  {}

  lemma {:induction false} TakenAgrees(s: Pool, start: nat, n: nat)
    requires Agrees(s) && |s.v| < U32 && FreeRun(s.v, start, n)
    ensures Agrees(Taken(s, start, n))
  {
    hide Count, Fill;
    CountFill(s.v, start, n, true);
    FreeRunFits(s.v, start, n);
  }

  /** A free keeps the counter right if and only if every existing block of its range was in use. */
  lemma {:induction false} GivenAgreesExactly(s: Pool, start: nat, n: nat)
    requires Agrees(s) && |s.v| < U32
    ensures Agrees(Given(s, start, n)) <==> forall k | start <= k < start + n && k < |s.v| :: s.v[k]
  {
    hide Count, Fill;
    CountCleared(s.v, start, n);
    UnusedRange(s.v, start, n);
  }

  lemma {:induction false} NoLag(used: u32, strays: nat, count: nat)
    requires (used + strays) % U32 == count % U32 && count < U32 && strays < U32
    ensures used == count <==> strays == 0
  {}

  /** A later free does not make good an earlier one: both must name blocks in use. */
  lemma {:induction false} TwoFreesAgreeExactly(s: Pool, start: nat, n: nat, k: nat)
    requires Agrees(s) && |s.v| < U32 / 2
    ensures var t := Given(s, start, n);
      Agrees(Given(t, k, 1)) <==>
        (forall j | start <= j < start + n && j < |s.v| :: s.v[j]) && (k < |s.v| ==> t.v[k])
  {
    hide Count, Fill, Unused, Given;
    var t := Given(s, start, n);
    UnusedRange(s.v, start, n);
    UnusedRange(t.v, k, 1);
    GivenCounts(s, start, n, 0);
    GivenCounts(t, k, 1, Unused(s.v, start, n));
    GivenSize(s, start, n);
    GivenSize(t, k, 1);
    NoLag(Given(t, k, 1).used, Unused(s.v, start, n) + Unused(t.v, k, 1), Count(Given(t, k, 1).v));
    assert Unused(t.v, k, 1) == 0 <==> (forall j | k <= j < k + 1 && j < |t.v| :: t.v[j]);
  }

  lemma {:induction false} GivenSize(s: Pool, start: nat, n: nat)
    ensures |Given(s, start, n).v| == |s.v|
  {}

  /** The same for the two calls. */
  lemma {:induction false} FreeUndoesAlloc(s: Pool, n: u32)
    requires |s.v| <= U32 / 4096 && Found(s, n) != -1
    ensures 0 <= Found(s, n) * 4096 < U32
    ensures Step(Step(s, AllocMany(n)), FreeMany(Found(s, n) * 4096, n)) == s
  {
    hide Found;
    FindsFree(s, n);
    GivenUndoes(s, Found(s, n), n);
  }

  /** Giving back what was just taken leaves no trace, whatever the counter. */
  lemma {:induction false} GivenUndoes(s: Pool, start: nat, n: nat)
    requires FreeRun(s.v, start, n)
    ensures Given(Taken(s, start, n), start, n) == s
  {
    FillUndo(s.v, start, n);
    ModShift(s.used + n, s.used + n, 0 - n);
  }
}
