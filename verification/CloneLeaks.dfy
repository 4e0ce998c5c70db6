/** The order in which vmm_clone_directory (mem/vmm.c) allocates frames, and hence what a clone that
    runs out of memory leaves behind. */
module CloneLeaks {
  import opened Bitmaps
  import opened PageTables
  import opened Clone

  /** What the clone of slot i allocates, in order: true for the copy of a page, false for a table. */
  function SlotAllocs(m: seq<Frame>, src: nat, i: nat): (r: seq<bool>)
    requires src < |m| && i < WORDS
    ensures |r| == SlotCost(m, src, i)
  {
    if i < KERNEL && Present(m[src][i]) then [false] + seq(CellCost(m, src, i, WORDS), _ => true) else []
  }

  /** The allocations for the directory and the first n slots, in order. */
  function Allocs(m: seq<Frame>, src: nat, n: nat): (r: seq<bool>)
    requires src < |m| && n <= WORDS
    ensures |r| == Cost(m, src, n)
  {
    if n == 0 then [false] else Allocs(m, src, n - 1) + SlotAllocs(m, src, n - 1)
  }

  /** The copies among the first `free` allocations of a clone. */
  function Leaked(m: seq<Frame>, src: nat, free: nat): nat
    requires src < |m| && free <= Cost(m, src, WORDS)
  {
    Count(Allocs(m, src, WORDS)[..free])
  }

  lemma {:induction false} CountConcat(a: seq<bool>, b: seq<bool>)
    ensures Count(a + b) == Count(a) + Count(b)
  {
    if b == [] {
      assert a + b == a;
    } else {
      assert (a + b)[..|a + b| - 1] == a + b[..|b| - 1];
      CountConcat(a, b[..|b| - 1]);
    }
  }

  lemma {:induction false} CountAll(s: seq<bool>, b: bool)
    requires forall i | 0 <= i < |s| :: s[i] == b
    ensures Count(s) == if b then |s| else 0
  {
    if s != [] {
      CountAll(s[..|s| - 1], b);
    }
  }

  lemma {:induction false} CountZero(s: seq<bool>)
    ensures Count(s) == 0 <==> forall i | 0 <= i < |s| :: !s[i]
  {
    if s != [] {
      CountZero(s[..|s| - 1]);
    }
  }

  lemma {:induction false} AllocsPrefix(m: seq<Frame>, src: nat, n: nat, n': nat)
    requires src < |m| && n <= n' <= WORDS
    ensures Allocs(m, src, n) <= Allocs(m, src, n')
  {
    hide SlotAllocs, Cost;
    if n < n' {
      AllocsPrefix(m, src, n, n' - 1);
      assert Allocs(m, src, n') == Allocs(m, src, n' - 1) + SlotAllocs(m, src, n' - 1);
    }
  }

  lemma {:induction false} PrefixCount(a: seq<bool>, b: seq<bool>, k: nat)
    requires k <= |b| && forall i | 0 <= i < |b| :: b[i] == (i > 0)
    ensures Count((a + b)[..|a| + k]) == Count(a) + (if k == 0 then 0 else k - 1)
  {
    assert (a + b)[..|a| + k] == a + b[..k];
    CountConcat(a, b[..k]);
    if k > 0 {
      assert b[..k] == [false] + b[1..k];
      CountConcat([false], b[1..k]);
      CountAll(b[1..k], true);
      CountAll([false], false);
    }
  }

  /** A slot cut short after k allocations: all of them but the first are copies. */
  lemma {:induction false} SlotPrefix(m: seq<Frame>, src: nat, i: nat, k: nat)
    requires src < |m| && i < WORDS && k <= SlotCost(m, src, i)
    ensures var copies: nat := if k == 0 then 0 else k - 1;
      Cost(m, src, i + 1) == Cost(m, src, i) + SlotCost(m, src, i)
      && Count(Allocs(m, src, i + 1)[..Cost(m, src, i) + k]) == Count(Allocs(m, src, i)) + copies
  {
    hide Count, CellCost;
    PrefixCount(Allocs(m, src, i), SlotAllocs(m, src, i), k);
  }

  lemma {:induction false} SlotAllocsCount(m: seq<Frame>, src: nat, i: nat)
    requires src < |m| && i < WORDS
    ensures Cost(m, src, i + 1) == Cost(m, src, i) + SlotCost(m, src, i)
    ensures Count(Allocs(m, src, i + 1))
      == Count(Allocs(m, src, i)) + (if SlotCost(m, src, i) == 0 then 0 else SlotCost(m, src, i) - 1)
  {
    hide SlotAllocs, Allocs, SlotCost, Cost, Count;
    SlotPrefix(m, src, i, SlotCost(m, src, i));
    var all := Allocs(m, src, i + 1);
    assert all[..|all|] == all;
  }

  lemma {:induction false} StartCount(m: seq<Frame>, src: nat)
    requires src < |m|
    ensures Cost(m, src, 0) == 1 && Count(Allocs(m, src, 0)) == 0
  {
    CountAll([false], false);
  }

  /** What was allocated up to a point is a prefix of the allocations of the whole clone. */
  lemma {:induction false} LeakedSoFar(m: seq<Frame>, src: nat, n: nat, free: nat)
    requires src < |m| && n <= WORDS && free <= Cost(m, src, n)
    ensures free <= Cost(m, src, WORDS) && Leaked(m, src, free) == Count(Allocs(m, src, n)[..free])
  {
    CostGrows(m, src, n, WORDS);
    AllocsPrefix(m, src, n, WORDS);
    assert Allocs(m, src, WORDS)[..free] == Allocs(m, src, n)[..free];
  }

  lemma {:induction false} UpdatedSize(owner: Owner, f: nat, use: Use)
    ensures f in owner ==> |owner[f := use]| == |owner|
  {
    if f in owner {
      assert owner[f := use].Keys == owner.Keys;
      assert |owner[f := use]| == |owner[f := use].Keys| && |owner| == |owner.Keys|;
    }
  }

  lemma {:induction false} CopiesAfter(owner: Owner, f: nat, use: Use)
    requires |owner[f := use]| == |owner| + 1
    ensures |Copies(owner[f := use])| == |Copies(owner)| + (if use.Copy? then 1 else 0)
  {
    var after := owner[f := use];
    UpdatedSize(owner, f, use);
    assert Copies(after) == Copies(owner) + if use.Copy? then {f} else {};
  }

  // ---------------------------------------------------------------- when nothing is left behind

  lemma {:induction false} CopiedCellCounts(m: seq<Frame>, src: nat, i: nat, j: nat)
    requires src < |m| && i < WORDS && j <= WORDS
    ensures CellCost(m, src, i, j) > 0 <==> exists b :: 0 <= b < j && IsCopied(Cell(m, src, i, b))
  {
    if j > 0 {
      CopiedCellCounts(m, src, i, j - 1);
    }
  }

  /** Some page of user slot i is writable. */
  ghost predicate HasCopies(m: seq<Frame>, src: nat, i: nat)
    requires src < |m| && i < WORDS
  {
    exists j :: 0 <= j < WORDS && IsCopied(Cell(m, src, i, j))
  }

  /** The first user slot from n on with a writable page, or 768 when there is none. */
  ghost function FirstWritable(m: seq<Frame>, src: nat, n: nat): (r: nat)
    requires src < |m| && n <= KERNEL
    ensures n <= r <= KERNEL && (r < KERNEL ==> HasCopies(m, src, r))
    ensures forall i | n <= i < r :: !HasCopies(m, src, i)
    decreases KERNEL - n
  {
    if n == KERNEL || HasCopies(m, src, n) then n else FirstWritable(m, src, n + 1)
  }

  /** The present entries among the first n user slots. */
  function TablesIn(m: seq<Frame>, src: nat, n: nat): nat
    requires src < |m| && n <= KERNEL
  {
    if n == 0 then 0 else TablesIn(m, src, n - 1) + if Present(m[src][n - 1]) then 1 else 0
  }

  lemma {:induction false} TableOnly(m: seq<Frame>, src: nat, i: nat)
    requires src < |m| && i < KERNEL && !HasCopies(m, src, i)
    ensures SlotAllocs(m, src, i) == if Present(m[src][i]) then [false] else []
  {
    CopiedCellCounts(m, src, i, WORDS);
  }

  /** Until the first slot with a writable page the clone allocates no copy. */
  lemma {:induction false} NoCopiesBefore(m: seq<Frame>, src: nat, n: nat)
    requires src < |m| && n <= FirstWritable(m, src, 0)
    ensures |Allocs(m, src, n)| == 1 + TablesIn(m, src, n)
    ensures forall k | 0 <= k < |Allocs(m, src, n)| :: !Allocs(m, src, n)[k]
  {
    hide SlotAllocs, HasCopies, Cost;
    if n > 0 {
      NoCopiesBefore(m, src, n - 1);
      assert !HasCopies(m, src, n - 1);
      TableOnly(m, src, n - 1);
    }
  }

  /** The kernel half costs nothing. */
  lemma {:induction false} KernelIsFree(m: seq<Frame>, src: nat, n: nat)
    requires src < |m| && KERNEL <= n <= WORDS
    ensures Allocs(m, src, n) == Allocs(m, src, KERNEL)
  {
    if n > KERNEL {
      KernelIsFree(m, src, n - 1);
    }
  }

  /** The first copy is the allocation after the directory and the tables of the user slots up to
      and including the first one with a writable page. */
  lemma {:induction false} FirstCopyAt(m: seq<Frame>, src: nat)
    requires src < |m| && FirstWritable(m, src, 0) < KERNEL
    ensures var first := FirstWritable(m, src, 0);
      var at := 1 + TablesIn(m, src, first + 1);
      && at < Cost(m, src, WORDS) && Allocs(m, src, WORDS)[at]
      && forall k | 0 <= k < at :: !Allocs(m, src, WORDS)[k]
  {
    var first := FirstWritable(m, src, 0);
    NoCopiesBefore(m, src, first);
    CopiedCellCounts(m, src, first, WORDS);
    AllocsPrefix(m, src, first + 1, WORDS);
    AllocsPrefix(m, src, first, WORDS);
    assert Present(m[src][first]);
    assert Allocs(m, src, first + 1) == Allocs(m, src, first) + SlotAllocs(m, src, first);
    var at := 1 + TablesIn(m, src, first + 1);
    forall k | 0 <= k < at + 1
      ensures k < Cost(m, src, WORDS) && Allocs(m, src, WORDS)[k] == (k == at)
    {
      assert Allocs(m, src, WORDS)[k] == Allocs(m, src, first + 1)[k];
    }
  }

  /** A clone cut off after `free` frames leaves nothing behind if and only if the source has no
      writable user page, or memory ended before its first copy. */
  lemma {:induction false} LeaksNothingExactly(m: seq<Frame>, src: nat, free: nat)
    requires src < |m| && free <= Cost(m, src, WORDS)
    ensures var first := FirstWritable(m, src, 0);
      Leaked(m, src, free) == 0 <==> first == KERNEL || free <= 1 + TablesIn(m, src, first + 1)
  {
    CountZero(Allocs(m, src, WORDS)[..free]);
    if FirstWritable(m, src, 0) == KERNEL {
      KernelIsFree(m, src, WORDS);
      NoCopiesBefore(m, src, KERNEL);
    } else {
      FirstCopyAt(m, src);
    }
  }

  // ---------------------------------------------------------------- the bitmap after a failure

  lemma {:induction false} CountAdded(v: Bitmap, v': Bitmap, added: set<nat>)
    requires |v| == |v'|
    requires forall f | f in added :: f < |v| && !v[f]
    requires forall f | 0 <= f < |v| :: v'[f] <==> v[f] || f in added
    ensures Count(v') == Count(v) + |added|
    decreases added
  {
    if added == {} {
      assert v' == v;
    } else {
      var f :| f in added;
      CountUpdate(v', f, false);
      CountAdded(v, v'[f := false], added - {f});
    }
  }

  /** The frames a failed clone left behind are counted by the bitmap. */
  lemma {:induction false} FailedCount(s0: Machine, s: Machine, src: nat, owner: Owner)
    requires Failed(s0, s, src, owner)
    ensures Count(s.v) == Count(s0.v) + |Copies(owner)|
    ensures s.v == s0.v <==> |Copies(owner)| == 0
  {
    CountAdded(s0.v, s.v, Copies(owner));
    if |Copies(owner)| == 0 {
      assert Copies(owner) == {};
    }
  }

  lemma {:induction false} NoCopyYet(d: nat)
    ensures |map[d := Directory]| == 1 && |Copies(map[d := Directory])| == 0
  {
    assert Copies(map[d := Directory]) == {};
  }

  lemma {:induction false} NothingAllocated(s: Machine, src: nat)
    requires src < |s.m| == |s.v|
    ensures Failed(s, s, src, map[])
    ensures |Copies(map[])| == 0 && Cost(s.m, src, 0) == 1 && Count(Allocs(s.m, src, 0)[..0]) == 0
  {}

  /** What a clone leaves behind that found only `free` frames free: the copies among its first
      `free` allocations; hence nothing if and only if no user page is writable or memory ended
      before the first copy. */
  ghost predicate LeftBehind(s0: Machine, s: Machine, src: nat, owner: Owner) {
    var free := |s0.v| - Count(s0.v);
    && src < |s0.m| && 0 <= free < Cost(s0.m, src, WORDS)
    && |Copies(owner)| == Leaked(s0.m, src, free)
    && Count(s.v) == Count(s0.v) + |Copies(owner)|
    && (s.v == s0.v <==>
        var first := FirstWritable(s0.m, src, 0);
        first == KERNEL || free <= 1 + TablesIn(s0.m, src, first + 1))
  }

  /** A clone that stopped in the first n slots after taking every free frame. */
  lemma {:induction false} LeaksExactly(s0: Machine, s: Machine, src: nat, owner: Owner, n: nat)
    requires WellFormed(s0, src) && Failed(s0, s, src, owner) && src < |s0.m| && n <= WORDS
    requires 0 <= |s0.v| - Count(s0.v) < Cost(s0.m, src, n)
    requires |Copies(owner)| == Count(Allocs(s0.m, src, n)[..|s0.v| - Count(s0.v)])
    ensures |s.m| == |s0.m| && View(s.m, src) == View(s0.m, src) && LeftBehind(s0, s, src, owner)
    ensures |s0.v| < Count(s0.v) + Cost(s0.m, src, WORDS)
  {
    hide View, Failed, FirstWritable, TablesIn, WellFormed, Cost, Allocs, Count;
    var free := |s0.v| - Count(s0.v);
    FailedKeepsSource(s0, s, src, owner);
    CostGrows(s0.m, src, n, WORDS);
    LeakedSoFar(s0.m, src, n, free);
    LeaksNothingExactly(s0.m, src, free);
    FailedCount(s0, s, src, owner);
  }
}
