/** The allocator's bitmap as a sequence of booleans, and the first-fit search specified on it. */
module Bitmaps {
  /** Entry i is true when block i is in use. */
  type Bitmap = seq<bool>

  function Count(v: Bitmap): (n: nat)
    ensures n <= |v|
  {
    if v == [] then 0 else Count(v[..|v| - 1]) + (if v[|v| - 1] then 1 else 0)
  }

  predicate FreeRun(v: Bitmap, start: int, n: nat) {
    0 <= start && start + n <= |v| && forall i | start <= i < start + n :: !v[i]
  }

  predicate UsedRun(v: Bitmap, start: int, n: nat) {
    0 <= start && start + n <= |v| && forall i | start <= i < start + n :: v[i]
  }

  /** v with those of the blocks [start, start + n) that exist marked b. */
  function Fill(v: Bitmap, start: nat, n: nat, b: bool): (r: Bitmap)
  {
    seq(|v|, i requires 0 <= i < |v| => if start <= i < start + n then b else v[i])
  }

  /** r is the least start of a free run of n blocks, or -1 when no run exists. */
  ghost predicate FirstFit(v: Bitmap, n: nat, r: int) {
    if r == -1 then forall s :: !FreeRun(v, s, n)
    else FreeRun(v, r, n) && forall s | s < r :: !FreeRun(v, s, n)
  }

  lemma {:induction false} NoRunThrough(v: Bitmap, s: int, n: nat, k: int)
    requires s <= k < s + n && 0 <= k < |v| && v[k]
    ensures !FreeRun(v, s, n)
  {}

  lemma {:induction false} FirstFitUnique(v: Bitmap, n: nat, r: int, r': int)
    requires FirstFit(v, n, r) && FirstFit(v, n, r')
    ensures r == r'
  {
    assert r != -1 ==> FreeRun(v, r, n);
    assert r' != -1 ==> FreeRun(v, r', n);
  }

  /** The first start at or after s of a free run of n blocks, or -1. */
  function Search(v: Bitmap, n: nat, s: nat): (r: int)
    ensures r == -1 || (r >= s && FreeRun(v, r, n))
    ensures forall t | s <= t && (r == -1 || t < r) :: !FreeRun(v, t, n)
    decreases |v| - s
  {
    if s + n > |v| then -1
    else if FreeRun(v, s, n) then s
    else if s == |v| then -1
    else Search(v, n, s + 1)
  }

  /** The recursive search returns the first fit. */
  lemma {:induction false} SearchIsFirstFit(v: Bitmap, n: nat, r: int)
    ensures FirstFit(v, n, r) <==> r == Search(v, n, 0)
  {
    var q := Search(v, n, 0);
    assert FirstFit(v, n, q) by {
      assert forall s :: FreeRun(v, s, n) ==> s >= 0;
    }
    if FirstFit(v, n, r) {
      FirstFitUnique(v, n, r, q);
    }
  }

  lemma {:induction false} CountUpdate(v: Bitmap, k: nat, b: bool)
    requires k < |v|
    ensures Count(v[k := b]) == Count(v) - (if v[k] then 1 else 0) + (if b then 1 else 0)
  {
    var n := |v| - 1;
    if k < n {
      assert v[k := b][..n] == v[..n][k := b];
      CountUpdate(v[..n], k, b);
    } else {
      assert v[k := b][..n] == v[..n];
    }
  }

  /** One more block marked: the step of every loop that sets or clears a range. */
  lemma {:induction false} FillGrow(v: Bitmap, start: nat, n: nat, b: bool)
    requires start + n < |v|
    ensures Fill(v, start, n, b)[start + n := b] == Fill(v, start, n + 1, b)
    ensures Fill(v, start, n, b)[start + n] == v[start + n]
    ensures v[start + n] != b ==> Count(Fill(v, start, n + 1, b)) == Count(Fill(v, start, n, b)) + (if b then 1 else -1)
  {
    CountUpdate(Fill(v, start, n, b), start + n, b);
  }

  /** Marking a run that is uniformly the other colour moves the population by its length. */
  lemma {:induction false} CountFill(v: Bitmap, start: nat, n: nat, b: bool)
    requires if b then FreeRun(v, start, n) else UsedRun(v, start, n)
    ensures Count(Fill(v, start, n, b)) == if b then Count(v) + n else Count(v) - n
  {
    if n == 0 {
      assert Fill(v, start, n, b) == v;
    } else {
      CountFill(v, start, n - 1, b);
      FillGrow(v, start, n - 1, b);
    }
  }

  /** A free run needs room in the population count, so the counter test of the allocator can
      only reject requests that no run could satisfy. */
  lemma {:induction false} FreeRunFits(v: Bitmap, start: nat, n: nat)
    requires FreeRun(v, start, n)
    ensures Count(v) + n <= |v|
  {
    CountFill(v, start, n, true);
  }

  lemma {:induction false} SearchFits(v: Bitmap, n: nat)
    ensures Search(v, n, 0) != -1 ==> Count(v) + n <= |v|
  {
    if Search(v, n, 0) != -1 {
      FreeRunFits(v, Search(v, n, 0), n);
    }
  }

  lemma {:induction false} FillUndo(v: Bitmap, start: nat, n: nat)
    requires FreeRun(v, start, n)
    ensures Fill(Fill(v, start, n, true), start, n, false) == v
  {}

  lemma {:induction false} NotAllUsed(v: Bitmap)
    ensures Count(v) == |v| || exists i :: FreeRun(v, i, 1)
  {
    if v != [] {
      var n := |v| - 1;
      NotAllUsed(v[..n]);
      if Count(v[..n]) != n {
        var i :| FreeRun(v[..n], i, 1);
        assert !v[..n][i];
        assert FreeRun(v, i, 1);
      } else if !v[n] {
        assert FreeRun(v, n, 1);
      }
    }
  }

  /** A single block can be found exactly when not all are in use. */
  lemma {:induction false} SearchOne(v: Bitmap)
    ensures Search(v, 1, 0) == -1 <==> Count(v) == |v|
    ensures Search(v, 1, 0) != -1 ==> 0 <= Search(v, 1, 0) < |v| && !v[Search(v, 1, 0)]
  {
    NotAllUsed(v);
    SearchFits(v, 1);
    assert Search(v, 1, 0) != -1 ==> FreeRun(v, Search(v, 1, 0), 1);
  }
}
