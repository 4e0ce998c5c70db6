/** Whole runs of the physical memory manager: any sequence of allocations and of frees of live
    allocations, on top of a bitmap `base` of blocks reserved at boot (mem/pmm.c). */
module PmmRuns {
  import opened Bits
  import opened Bitmaps
  import opened Seqs
  import PmmPool

  datatype Range = Range(start: nat, n: nat) {
    predicate Has(i: int) {
      start <= i < start + n
    }
  }

  /** The allocator together with the allocations that have not been freed yet. */
  datatype Ledger = Ledger(v: Bitmap, used: u32, live: seq<Range>)

  datatype Call = One | Many(n: u32) | Free(k: nat)

  function Pool(s: Ledger): PmmPool.Pool {
    PmmPool.Pool(s.v, s.used)
  }

  /** The ledger after n blocks from r on were allocated, unless r is -1. */
  function Granted(s: Ledger, r: int, n: nat): Ledger
    requires r >= -1
  {
    if r == -1 then s
    else
      var p := PmmPool.Taken(Pool(s), r, n);
      Ledger(p.v, p.used, s.live + [Range(r, n)])
  }

  function Step(s: Ledger, c: Call): Ledger {
    match c
    case One => Granted(s, PmmPool.FoundOne(Pool(s)), 1)
    case Many(n) => Granted(s, PmmPool.Found(Pool(s), n), n)
    case Free(k) =>
      if k < |s.live| then
        var p := PmmPool.Given(Pool(s), s.live[k].start, s.live[k].n);
        Ledger(p.v, p.used, Without(s.live, k))
      else s
  }

  function Run(s: Ledger, calls: seq<Call>): Ledger {
    if calls == [] then s else Step(Run(s, calls[..|calls| - 1]), calls[|calls| - 1])
  }

  predicate Covered(live: seq<Range>, i: int) {
    exists k | 0 <= k < |live| :: live[k].Has(i)
  }

  predicate Disjoint(live: seq<Range>) {
    forall j, k | 0 <= j < |live| && 0 <= k < |live| && j != k :: Apart(live[j], live[k])
  }

  predicate Apart(a: Range, b: Range) {
    a.start + a.n <= b.start || b.start + b.n <= a.start
  }

  function Total(live: seq<Range>): nat {
    if live == [] then 0 else Total(live[..|live| - 1]) + live[|live| - 1].n
  }

  lemma {:induction false} TotalWithout(live: seq<Range>, k: nat)
    requires k < |live|
    ensures Total(Without(live, k)) == Total(live) - live[k].n
  {
    var n := |live| - 1;
    if k < n {
      TotalWithout(live[..n], k);
      assert Without(live, k)[..n - 1] == Without(live[..n], k);
    } else {
      assert Without(live, k) == live[..n];
    }
  }

  /** Live ranges are in use, were free at boot and are pairwise disjoint; the used blocks are
      exactly the reserved ones and the live ones; the counter is the population count, and both
      add up. */
  ghost predicate Inv(base: Bitmap, s: Ledger) {
    && |s.v| == |base| && s.used == Count(s.v)
    && AllOwned(base, s)
    && Disjoint(s.live)
    && Explained(base, s)
    && Count(s.v) == Count(base) + Total(s.live)
  }

  ghost predicate AllOwned(base: Bitmap, s: Ledger) {
    forall k | 0 <= k < |s.live| :: Owned(base, s, s.live[k])
  }

  ghost predicate Explained(base: Bitmap, s: Ledger)
    requires |s.v| == |base|
  {
    forall i | 0 <= i < |base| :: s.v[i] <==> base[i] || Covered(s.live, i)
  }

  predicate Owned(base: Bitmap, s: Ledger, r: Range) {
    r.n > 0 && UsedRun(s.v, r.start, r.n) && FreeRun(base, r.start, r.n)
  }

  lemma {:induction false} UsedAndFreeApart(v: Bitmap, a: Range, b: Range)
    requires UsedRun(v, a.start, a.n) && FreeRun(v, b.start, b.n) && a.n > 0 && b.n > 0
    ensures Apart(a, b)
  {
    var i := if a.start <= b.start then b.start else a.start;
    assert a.Has(i) ==> v[i];
    assert b.Has(i) ==> !v[i];
  }

  lemma {:induction false} AllocCovers(live: seq<Range>, added: Range, i: int)
    ensures Covered(live + [added], i) <==> Covered(live, i) || added.Has(i)
  {
    var more := live + [added];
    if Covered(live, i) {
      var k :| 0 <= k < |live| && live[k].Has(i);
      assert more[k].Has(i);
    }
    assert added.Has(i) ==> more[|live|].Has(i);
  }

  lemma {:induction false} AllocExplained(base: Bitmap, s: Ledger, r: nat, n: nat)
    requires |s.v| == |base| && Explained(base, s) && FreeRun(s.v, r, n)
    ensures FreeRun(base, r, n) && Explained(base, Granted(s, r, n))
  {
    forall i | 0 <= i < |base|
      ensures r <= i < r + n ==> !base[i]
      ensures Fill(s.v, r, n, true)[i] <==> base[i] || Covered(s.live + [Range(r, n)], i)
    {
      assert s.v[i] <==> base[i] || Covered(s.live, i);
      AllocCovers(s.live, Range(r, n), i);
    }
  }

  lemma {:induction false} AllocCounts(s: Ledger, r: nat, n: nat, reserved: nat)
    requires |s.v| < U32 && FreeRun(s.v, r, n) && s.used == Count(s.v) == reserved + Total(s.live)
    ensures var s' := Granted(s, r, n);
      s'.used == Count(s'.v) == reserved + Total(s'.live)
  {
    hide Count, Fill;
    CountFill(s.v, r, n, true);
    FreeRunFits(s.v, r, n);
    assert Granted(s, r, n).live[..|s.live|] == s.live;
  }

  lemma {:induction false} FreeCounts(s: Ledger, k: nat, reserved: nat)
    requires |s.v| < U32 && k < |s.live| && UsedRun(s.v, s.live[k].start, s.live[k].n)
    requires s.used == Count(s.v) == reserved + Total(s.live)
    ensures var s' := Step(s, Free(k));
      s'.used == Count(s'.v) == reserved + Total(s'.live)
  {
    hide Count, Fill;
    var gone := s.live[k];
    CountFill(s.v, gone.start, gone.n, false);
    TotalWithout(s.live, k);
    assert PmmPool.Existing(|s.v|, gone.start, gone.n) == gone.n;
  }

  lemma {:induction false} AllocKeeps(base: Bitmap, s: Ledger, r: nat, n: nat)
    requires Inv(base, s) && |base| < U32 && n > 0 && FreeRun(s.v, r, n)
    ensures Inv(base, Granted(s, r, n))
  {
    var s' := Granted(s, r, n);
    var added := Range(r, n);
    hide Count, Total;
    AllocCounts(s, r, n, Count(base));
    AllocExplained(base, s, r, n);
    forall k | 0 <= k < |s.live|
      ensures Apart(s.live[k], added) && Owned(base, s', s.live[k])
    {
      assert Owned(base, s, s.live[k]);
      UsedAndFreeApart(s.v, s.live[k], added);
    }
    assert Owned(base, s', added);
  }

  lemma {:induction false} FreeUncovers(live: seq<Range>, k: nat, i: int)
    requires Disjoint(live) && k < |live|
    ensures Covered(Without(live, k), i) <==> Covered(live, i) && !live[k].Has(i)
  {
    var rest := Without(live, k);
    if Covered(rest, i) {
      var j :| 0 <= j < |rest| && rest[j].Has(i);
      var was := if j < k then j else j + 1;
      assert live[was].Has(i);
      assert Apart(live[was], live[k]);
    }
    if Covered(live, i) && !live[k].Has(i) {
      var j :| 0 <= j < |live| && live[j].Has(i);
      assert rest[if j < k then j else j - 1].Has(i);
    }
  }

  lemma {:induction false} FreeStaysDisjoint(live: seq<Range>, k: nat)
    requires Disjoint(live) && k < |live|
    ensures Disjoint(Without(live, k))
    ensures forall j | 0 <= j < |live| - 1 ::
      Without(live, k)[j] in live && Apart(Without(live, k)[j], live[k])
  {
    forall j | 0 <= j < |live| - 1
      ensures Without(live, k)[j] in live && Apart(Without(live, k)[j], live[k])
    {
      var was := if j < k then j else j + 1;
      assert Apart(live[was], live[k]);
    }
    forall i, j | 0 <= i < |live| - 1 && 0 <= j < |live| - 1 && i != j
      ensures Apart(Without(live, k)[i], Without(live, k)[j])
    {
      assert Apart(live[if i < k then i else i + 1], live[if j < k then j else j + 1]);
    }
  }

  lemma {:induction false} FreeExplained(base: Bitmap, s: Ledger, k: nat)
    requires |s.v| == |base| && Explained(base, s) && AllOwned(base, s) && Disjoint(s.live) && k < |s.live|
    ensures Explained(base, Step(s, Free(k)))
  {
    var gone := s.live[k];
    assert Owned(base, s, gone);
    forall i | 0 <= i < |base|
      ensures Fill(s.v, gone.start, gone.n, false)[i] <==> base[i] || Covered(Without(s.live, k), i)
    {
      FreeUncovers(s.live, k, i);
      assert s.v[i] <==> base[i] || Covered(s.live, i);
    }
  }

  lemma {:induction false} FreeKeeps(base: Bitmap, s: Ledger, k: nat)
    requires Inv(base, s) && k < |s.live| && |base| < U32
    ensures Inv(base, Step(s, Free(k)))
  {
    var s' := Step(s, Free(k));
    var gone := s.live[k];
    hide Count, Total;
    assert Owned(base, s, gone);
    FreeCounts(s, k, Count(base));
    FreeStaysDisjoint(s.live, k);
    FreeExplained(base, s, k);
    forall j | 0 <= j < |s'.live|
      ensures Owned(base, s', s'.live[j])
    {
      assert Owned(base, s, s'.live[j]);
    }
  }

  lemma {:induction false} StepKeeps(base: Bitmap, s: Ledger, c: Call)
    requires Inv(base, s) && |base| <= U32 / 2
    ensures Inv(base, Step(s, c))
    ensures PmmPool.FoundOne(Pool(s)) == Search(s.v, 1, 0)
    ensures forall n: u32 :: PmmPool.Found(Pool(s), n) == if n == 0 then -1 else Search(s.v, n, 0)
  {
    hide Search, Count, Granted, Inv;
    InvCounter(base, s);
    PmmPool.AgreeingCounter(Pool(s));
    match c
    case One => Serve(base, s, Search(s.v, 1, 0), 1);
    case Many(n) => Serve(base, s, PmmPool.Found(Pool(s), n), n);
    case Free(k) => if k < |s.live| { FreeKeeps(base, s, k); }
  }

  lemma {:induction false} InvCounter(base: Bitmap, s: Ledger)
    requires Inv(base, s)
    ensures s.used == Count(s.v) && |s.v| == |base|
  {}

  lemma {:induction false} Serve(base: Bitmap, s: Ledger, r: int, n: nat)
    requires Inv(base, s) && |base| < U32 && (r == -1 || (n > 0 && FreeRun(s.v, r, n)))
    ensures r >= -1 && Inv(base, Granted(s, r, n))
  {
    hide Inv, Granted;
    if r != -1 {
      AllocKeeps(base, s, r, n);
    } else {
      assert Granted(s, r, n) == s by {
        NothingGranted(s, n);
      }
    }
  }

  lemma {:induction false} NothingGranted(s: Ledger, n: nat)
    ensures Granted(s, -1, n) == s
  {}

  function Booted(base: Bitmap): Ledger
    requires |base| < U32
  {
    Ledger(base, Count(base), [])
  }

  /** Over every run: the counter agrees with the bitmap, so that its test refuses nothing a search
      would find; live ranges are disjoint, and nothing but reserved and live blocks is marked. */
  lemma {:induction false} RunKeeps(base: Bitmap, calls: seq<Call>)
    requires |base| <= U32 / 2
    ensures var s := Run(Booted(base), calls);
      && Inv(base, s)
      && PmmPool.FoundOne(Pool(s)) == Search(s.v, 1, 0)
      && forall n: u32 :: PmmPool.Found(Pool(s), n) == if n == 0 then -1 else Search(s.v, n, 0)
  {
    if calls == [] {
      assert forall i | 0 <= i < |base| :: !Covered([], i);
      assert Inv(base, Booted(base));
    } else {
      hide Inv, Step, Search;
      RunKeeps(base, calls[..|calls| - 1]);
      StepKeeps(base, Run(Booted(base), calls[..|calls| - 1]), calls[|calls| - 1]);
    }
    StepKeeps(base, Run(Booted(base), calls), One);
  }

  /** Conservation: once every allocation has been returned, the allocator is the one of boot. */
  lemma {:induction false} AllFreedRestores(base: Bitmap, calls: seq<Call>)
    requires |base| <= U32 / 2 && Run(Booted(base), calls).live == []
    ensures Run(Booted(base), calls) == Booted(base)
  {
    RunKeeps(base, calls);
    var s := Run(Booted(base), calls);
    assert forall i | 0 <= i < |base| :: !Covered(s.live, i);
    assert s.v == base;
  }
}
