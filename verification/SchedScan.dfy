/** The do-while loop of process_get_next, one iteration at a time, and exactly when it ends. */
module SchedScan {
  import opened Bits
  import opened SchedSpec
  import opened Seqs

  /** `start` is the index of the block the loop test compares against, or -1 once that block has
      been unlinked and freed. */
  datatype Scan =
    | Scanning(q: seq<Pcb>, pos: nat, start: int)
    | Found(q: seq<Pcb>, pos: nat)
    | Exhausted(q: seq<Pcb>)

  predicate ScanOk(sc: Scan) {
    sc.Scanning? ==> sc.pos < |sc.q| && !sc.q[0].state.Terminated?
  }

  function Begin(s: Sched): Scan
    requires s.cur < |s.queue|
  {
    var pos := if s.cur + 1 < |s.queue| then s.cur + 1 else 0;
    Scanning(s.queue, pos, pos)
  }

  /** The loop test at the end of an iteration. */
  function Test(q: seq<Pcb>, pos: nat, start: int): Scan {
    if pos == start then Exhausted(q) else Scanning(q, pos, start)
  }

  /** One iteration. */
  function ScanStep(sc: Scan, time: u32): Scan
    requires sc.Scanning? && ScanOk(sc)
  {
    var p := sc.q[sc.pos];
    if Eligible(p, time) then Found(sc.q[sc.pos := p.(state := Ready)], sc.pos)
    else if p.state.Terminated? then
      var q := Without(sc.q, sc.pos);
      var start := if sc.start == sc.pos then -1 else if sc.start > sc.pos then sc.start - 1 else sc.start;
      Test(q, if sc.pos < |q| then sc.pos else 0, start)
    else
      Test(sc.q, if sc.pos + 1 < |sc.q| then sc.pos + 1 else 0, sc.start)
  }

  /** The scan has passed the blocks in (cur, k) and stands on block k of the original queue, or
      on idle when k is past the end. */
  ghost predicate ScanAt(s: Sched, k: nat, sc: Scan) {
    && WeakInv(s) && s.cur < k <= |s.queue| && sc.Scanning?
    && (forall j | s.cur < j < k :: !Eligible(s.queue[j], s.time))
    && sc.q == Purge(s.queue, s.cur + 1, k)
    && sc.pos == (if k < |s.queue| then s.cur + 1 + |Live(s.queue[s.cur + 1..k])| else 0)
    && sc.start == (if s.cur + 1 == |s.queue| then 0
                    else if k > s.cur + 1 && s.queue[s.cur + 1].state.Terminated? then -1
                    else s.cur + 1)
  }

  lemma {:induction false} LiveSnoc(q: seq<Pcb>, lo: nat, k: nat)
    requires lo <= k < |q|
    ensures Live(q[lo..k + 1]) == Live(q[lo..k]) + (if q[k].state.Terminated? then [] else [q[k]])
  {
    assert q[lo..k + 1][..k - lo] == q[lo..k];
  }

  lemma {:induction false} LiveHead(q: seq<Pcb>)
    requires |q| > 0 && !q[0].state.Terminated?
    ensures |Live(q)| > 0
  {
    if |q| > 1 {
      LiveHead(q[..|q| - 1]);
    }
  }

  lemma {:induction false} BeginAt(s: Sched)
    requires WeakInv(s)
    ensures ScanAt(s, s.cur + 1, Begin(s)) && ScanOk(Begin(s))
  {
    assert s.queue[s.cur + 1..s.cur + 1] == [];
    assert Purge(s.queue, s.cur + 1, s.cur + 1) == s.queue;
  }

  lemma {:induction false} ScanAtOk(s: Sched, k: nat, sc: Scan)
    requires ScanAt(s, k, sc)
    ensures ScanOk(sc) && sc.q[0] == s.queue[0] && s.cur < |sc.q| && sc.q[s.cur] == s.queue[s.cur]
    ensures k < |s.queue| ==> sc.pos > s.cur && sc.q[sc.pos] == s.queue[k]
    ensures k == |s.queue| ==> sc.pos == 0
  {
    hide Live, Purge;
    PurgeAt(s.queue, s.cur + 1, k, 0);
    PurgeAt(s.queue, s.cur + 1, k, s.cur);
    PurgeAt(s.queue, s.cur + 1, k, k);
  }

  /** Passing an ineligible block. */
  lemma {:induction false} ScanPasses(s: Sched, k: nat, sc: Scan)
    requires ScanAt(s, k, sc) && ScanOk(sc) && k < |s.queue| && !Eligible(s.queue[k], s.time)
    ensures ScanAt(s, k + 1, ScanStep(sc, s.time))
  {
    hide Live;
    var lo := s.cur + 1;
    ScanAtOk(s, k, sc);
    LiveSnoc(s.queue, lo, k);
    var live := Live(s.queue[lo..k]);
    assert s.queue[k..] == [s.queue[k]] + s.queue[k + 1..];
    if s.queue[k].state.Terminated? {
      assert Without(sc.q, sc.pos) == Purge(s.queue, lo, k + 1);
    } else {
      assert sc.q == Purge(s.queue, lo, k + 1);
    }
    if k > lo && !s.queue[lo].state.Terminated? {
      assert s.queue[lo..k][0] == s.queue[lo];
      LiveHead(s.queue[lo..k]);
    }
    assert |Purge(s.queue, lo, k + 1)| == lo + |Live(s.queue[lo..k + 1])| + (|s.queue| - (k + 1));
  }

  /** Reaching an eligible block. */
  lemma {:induction false} ScanFinds(s: Sched, k: nat, sc: Scan)
    requires ScanAt(s, k, sc) && ScanOk(sc) && k < |s.queue| && Eligible(s.queue[k], s.time)
    ensures ScanStep(sc, s.time) == Found(Choose(s).queue, Choose(s).next)
  {
    hide Live, Purge;
    ScanAtOk(s, k, sc);
    NextIs(s.queue, s.cur + 1, s.time, k);
  }

  lemma {:induction false} NextIs(q: seq<Pcb>, i: nat, time: u32, k: nat)
    requires i <= k <= |q| && (forall j | i <= j < k :: !Eligible(q[j], time)) && (k < |q| ==> Eligible(q[k], time))
    ensures NextFrom(q, i, time) == k
    decreases k - i
  {
    if i < k {
      NextIs(q, i + 1, time, k);
    }
  }

  /** Back at idle: the scan returns idle when it is ready, or when the loop test succeeds. */
  lemma {:induction false} ScanWraps(s: Sched, sc: Scan)
    requires ScanAt(s, |s.queue|, sc) && ScanOk(sc)
    ensures Settles(s) ==>
      ScanStep(sc, s.time)
        == (if s.cur != 0 then Found(Choose(s).queue, Choose(s).next) else Exhausted(Choose(s).queue))
      && Choose(s).next == 0
    ensures !Settles(s) ==> Lost(ScanStep(sc, s.time), s.time)
  {
    hide Live, Purge;
    ScanAtOk(s, |s.queue|, sc);
    NextIs(s.queue, s.cur + 1, s.time, |s.queue|);
    assert sc.q == Choose(s).queue;
    PurgeAt(s.queue, s.cur + 1, |s.queue|, 0);
    if s.cur != 0 {
      assert sc.q[0 := sc.q[0].(state := Ready)] == sc.q;
    } else if |s.queue| > 1 && !s.queue[1].state.Terminated? {
      LiveHead(s.queue[1..]);
      assert s.queue[1..|s.queue|] == s.queue[1..];
    }
    if !Settles(s) {
      forall i | 0 <= i < |sc.q|
        ensures !Eligible(sc.q[i], s.time)
      {
        var j := Origin(s.queue, 1, |s.queue|, i);
      }
    }
  }

  /** A scan that can never end: its start block is gone and nothing in the queue is eligible. */
  predicate Lost(sc: Scan, time: u32) {
    && sc.Scanning? && ScanOk(sc) && sc.start == -1
    && forall i | 0 <= i < |sc.q| :: !Eligible(sc.q[i], time)
  }

  lemma {:induction false} LostForGood(sc: Scan, time: u32)
    requires Lost(sc, time)
    ensures Lost(ScanStep(sc, time), time)
  {}

  function Iterate(sc: Scan, time: u32, n: nat): Scan
    requires ScanOk(sc)
    decreases n
  {
    if n == 0 || !sc.Scanning? then sc
    else if ScanOk(ScanStep(sc, time)) then Iterate(ScanStep(sc, time), time, n - 1)
    else ScanStep(sc, time)
  }

  lemma {:induction false} LostIterates(sc: Scan, time: u32, n: nat)
    requires Lost(sc, time)
    ensures Iterate(sc, time, n).Scanning?
    decreases n
  {
    if n > 0 {
      LostForGood(sc, time);
      LostIterates(ScanStep(sc, time), time, n - 1);
    }
  }

  /** How the scan goes on from block k. */
  lemma {:induction false} ScanFrom(s: Sched, k: nat, sc: Scan) returns (n: nat)
    requires ScanAt(s, k, sc) && ScanOk(sc)
    ensures Settles(s) ==> IsChoice(s, Iterate(sc, s.time, n))
    ensures !Settles(s) ==> forall m :: Iterate(sc, s.time, m).Scanning?
    decreases |s.queue| - k
  {
    hide Live, Purge, Choose, Settles, ScanAt, WeakInv, Lost, Eligible;
    ScanBounds(s, k, sc);
    var next := ScanStep(sc, s.time);
    if k == |s.queue| {
      ScanWraps(s, sc);
      n := 1;
      forall m: nat | !Settles(s)
        ensures Iterate(sc, s.time, m).Scanning?
      {
        LostIsOk(next, s.time);
        if m > 0 {
          LostIterates(next, s.time, m - 1);
        }
      }
      assert Settles(s) ==> Iterate(next, s.time, 0) == next;
    } else if Eligible(s.queue[k], s.time) {
      ScanFinds(s, k, sc);
      FoundSettles(s, k);
      n := 1;
      assert Iterate(next, s.time, 0) == next;
    } else {
      ScanPasses(s, k, sc);
      ScanAtOk(s, k + 1, next);
      n := ScanFrom(s, k + 1, next);
      n := n + 1;
      forall m: nat | !Settles(s)
        ensures Iterate(sc, s.time, m).Scanning?
      {
        if m > 0 {
          assert Iterate(next, s.time, m - 1).Scanning?;
        }
      }
    }
  }

  /** The scan ended with the queue and the process that Choose describes. */
  predicate IsChoice(s: Sched, sc: Scan)
    requires s.cur < |s.queue|
  {
    sc == Found(Choose(s).queue, Choose(s).next) || (sc == Exhausted(Choose(s).queue) && Choose(s).next == 0)
  }

  lemma {:induction false} ScanBounds(s: Sched, k: nat, sc: Scan)
    requires ScanAt(s, k, sc)
    ensures s.cur < k <= |s.queue| && sc.Scanning?
  {}

  lemma {:induction false} LostIsOk(sc: Scan, time: u32)
    ensures Lost(sc, time) ==> sc.Scanning? && ScanOk(sc)
  {}

  lemma {:induction false} FoundSettles(s: Sched, k: nat)
    requires s.cur < k < |s.queue| && Eligible(s.queue[k], s.time)
    ensures Settles(s)
  {
    if s.cur == 0 {
      NextAtMost(s.queue, 1, s.time, k);
    }
  }

  lemma {:induction false} NextAtMost(q: seq<Pcb>, i: nat, time: u32, k: nat)
    requires i <= k < |q| && Eligible(q[k], time)
    ensures NextFrom(q, i, time) <= k
    decreases k - i
  {
    if i < k {
      NextAtMost(q, i + 1, time, k);
    }
  }

  /** process_get_next ends if and only if the current process is not idle, or another process is
      eligible, or the process after idle is absent or not terminated; and then it returns the
      first eligible later process, or idle, having unlinked the terminated ones it passed. */
  lemma {:induction false} ScanEndsExactly(s: Sched)
    requires WeakInv(s)
    ensures ScanOk(Begin(s))
    ensures Settles(s) <==> exists n :: !Iterate(Begin(s), s.time, n).Scanning?
    ensures forall n :: !Iterate(Begin(s), s.time, n).Scanning? ==> IsChoice(s, Iterate(Begin(s), s.time, n))
  {
    hide Live, Purge, Choose, Settles, ScanAt, WeakInv, Lost, Eligible, ScanStep, Begin;
    BeginAt(s);
    WeakBounds(s);
    var n := ScanFrom(s, s.cur + 1, Begin(s));
    forall m: nat | !Iterate(Begin(s), s.time, m).Scanning?
      ensures IsChoice(s, Iterate(Begin(s), s.time, m))
    {
      IterateStable(Begin(s), s.time, m, n);
    }
  }

  lemma {:induction false} WeakBounds(s: Sched)
    requires WeakInv(s)
    ensures s.cur < |s.queue|
  {}

  /** Once ended, a scan stays as it is. */
  lemma {:induction false} IterateStable(sc: Scan, time: u32, m: nat, n: nat)
    requires ScanOk(sc) && !Iterate(sc, time, m).Scanning? && !Iterate(sc, time, n).Scanning?
    ensures Iterate(sc, time, m) == Iterate(sc, time, n)
    decreases m
  {
    hide ScanStep;
    if m > 0 && n > 0 && sc.Scanning? && ScanOk(ScanStep(sc, time)) {
      IterateStable(ScanStep(sc, time), time, m - 1, n - 1);
    }
  }
}
