/** Whole runs of the scheduler: the invariant, and how long a process can wait that is ready or
    whose sleep is over. */
module SchedRuns {
  import opened Bits
  import opened SchedSpec
  import opened SchedScan

  /** Every event of the run is possible when it happens. */
  predicate CanRun(s: Sched, events: seq<Event>)
    decreases |events|
  {
    events == [] || (Enabled(s, events[0]) && CanRun(Step(s, events[0]), events[1..]))
  }

  function Run(s: Sched, events: seq<Event>): Sched
    requires CanRun(s, events)
    decreases |events|
  {
    if events == [] then s else Run(Step(s, events[0]), events[1..])
  }

  /** Over every run that leaves idle alone, exactly the current process is running and idle is
      ready whenever it is not current. */
  lemma {:induction false} RunKeepsInv(s: Sched, events: seq<Event>)
    requires Inv(s) && CanRun(s, events)
    ensures Inv(Run(s, events))
    decreases |events|
  {
    hide Inv, Step, Settles;
    if events != [] {
      StepKeepsInv(s, events[0]);
      RunKeepsInv(Step(s, events[0]), events[1..]);
    }
  }

  /** The arguments of every event make sense when it happens. */
  predicate Applicable(s: Sched, events: seq<Event>)
    decreases |events|
  {
    events == [] || (Applies(s, events[0]) && Applicable(Step(s, events[0]), events[1..]))
  }

  /** Number of calls to process_yield in a run. */
  function YieldCount(s: Sched, events: seq<Event>): nat
    requires Applicable(s, events)
    decreases |events|
  {
    if events == [] then 0
    else (if Yields(s, events[0]) then 1 else 0) + YieldCount(Step(s, events[0]), events[1..])
  }

  function TickCount(events: seq<Event>): nat {
    if events == [] then 0 else (if events[0].Tick? then 1 else 0) + TickCount(events[1..])
  }

  function CreateCount(events: seq<Event>): nat {
    if events == [] then 0 else (if events[0].Create? then 1 else 0) + CreateCount(events[1..])
  }

  predicate DistinctPids(q: seq<Pcb>) {
    forall i, j | 0 <= i < j < |q| :: q[i].pid != q[j].pid
  }

  /** The event neither blocks nor terminates the process called pid; a new process has a new name. */
  predicate Spares(s: Sched, e: Event, pid: u32) {
    match e
    case Create(p) => forall i | 0 <= i < |s.queue| :: s.queue[i].pid != p
    case Block(i) => i < |s.queue| ==> s.queue[i].pid != pid
    case Terminate(i) => i < |s.queue| ==> s.queue[i].pid != pid
    case _ => true
  }

  predicate AllSpare(s: Sched, events: seq<Event>, pid: u32)
    requires Applicable(s, events)
    decreases |events|
  {
    events == [] || (Spares(s, events[0], pid) && AllSpare(Step(s, events[0]), events[1..], pid))
  }

  /** pid is current after some event of the run, at most `budget` yields from its start, and every
      scan up to then ends. */
  predicate BecomesCurrent(s: Sched, events: seq<Event>, pid: u32, budget: int)
    requires Applicable(s, events)
    decreases |events|
  {
    events != [] && Enabled(s, events[0]) &&
    var s1 := Step(s, events[0]);
    var left := budget - (if Yields(s, events[0]) then 1 else 0);
    left >= 0 && ((s1.cur < |s1.queue| && s1.queue[s1.cur].pid == pid) || BecomesCurrent(s1, events[1..], pid, left))
  }

  /** Cyclic distance from the current process to index t. */
  function Distance(s: Sched, t: nat): int {
    if t > s.cur then t - s.cur else t + |s.queue| - s.cur
  }

  /** Index t holds a process called pid that is not current, and is ready or has slept enough. */
  predicate Waiting(s: Sched, pid: u32, t: nat) {
    t < |s.queue| && t != s.cur && s.queue[t].pid == pid && Eligible(s.queue[t], s.time)
  }

  /** A sleeper stays due as long as the time does not wrap. */
  predicate StaysDue(s: Sched, t: nat, ticks: nat) {
    t < |s.queue| && (s.queue[t].state.Ready? || s.time + ticks < U32)
  }

  /** While another process is due, the scan ends. */
  lemma {:induction false} WaitingSettles(s: Sched, pid: u32, t: nat)
    requires WeakInv(s) && Waiting(s, pid, t)
    ensures Settles(s)
  {
    if s.cur == 0 {
      NextAtMost(s.queue, 1, s.time, t);
    }
  }

  lemma {:induction false} LiveDistinct(q: seq<Pcb>)
    requires DistinctPids(q)
    ensures DistinctPids(Live(q))
  {
    if q != [] {
      var n := |q| - 1;
      LiveDistinct(q[..n]);
      forall p | p in Live(q[..n])
        ensures p.pid != q[n].pid
      {
        var i :| 0 <= i < n && q[i] == p;
      }
    }
  }

  lemma {:induction false} PurgeDistinct(q: seq<Pcb>, lo: nat, hi: nat)
    requires lo <= hi <= |q| && DistinctPids(q)
    ensures DistinctPids(Purge(q, lo, hi))
  {
    hide Live;
    LiveDistinct(q[lo..hi]);
    var r := Purge(q, lo, hi);
    var live := Live(q[lo..hi]);
    forall i, j | 0 <= i < j < |r|
      ensures r[i].pid != r[j].pid
    {
      if lo <= i && j < lo + |live| {
        assert r[i] == live[i - lo] && r[j] == live[j - lo];
      } else {
        var a := Origin'(q, lo, hi, i);
        var b := Origin'(q, lo, hi, j);
        assert a < b;
      }
    }
  }

  /** Origin, saying also which part of the queue the block came from. */
  lemma {:induction false} Origin'(q: seq<Pcb>, lo: nat, hi: nat, i: nat) returns (j: nat)
    requires lo <= hi <= |q| && i < |Purge(q, lo, hi)|
    ensures j < |q| && Purge(q, lo, hi)[i] == q[j]
    ensures if i < lo then j == i
      else if i < lo + |Live(q[lo..hi])| then lo <= j < hi
      else j == i - lo - |Live(q[lo..hi])| + hi
  {
    hide Live;
    PurgeAt(q, lo, hi, i);
    if lo <= i < lo + |Live(q[lo..hi])| {
      j :| lo <= j < hi && q[j] == Purge(q, lo, hi)[i];
    } else {
      j := if i < lo then i else i - lo - |Live(q[lo..hi])| + hi;
      PurgeAt(q, lo, hi, j);
    }
  }

  lemma {:induction false} ChooseDistinct(s: Sched)
    requires s.cur < |s.queue| && DistinctPids(s.queue)
    ensures DistinctPids(Choose(s).queue) && DistinctPids(Yield(s).queue)
  {
    hide Purge, Live, NextFrom;
    var k := NextFrom(s.queue, s.cur + 1, s.time);
    var q := Purge(s.queue, s.cur + 1, k);
    PurgeDistinct(s.queue, s.cur + 1, k);
    PurgeAt(s.queue, s.cur + 1, k, k);
    assert |Choose(s).queue| == |q| && forall i | 0 <= i < |q| :: Choose(s).queue[i].pid == q[i].pid;
  }

  lemma {:induction false} StepDistinct(s: Sched, e: Event, pid: u32)
    requires Applies(s, e) && DistinctPids(s.queue) && Spares(s, e, pid)
    ensures DistinctPids(Step(s, e).queue)
  {
    hide Yield;
    if Yields(s, e) {
      ChooseDistinct(Prepare(s, e));
    }
  }

  /** The scan chooses the waiting process or one that is strictly closer to it. */
  lemma {:induction false} ChooseAdvances(s: Sched, pid: u32, t: nat) returns (t': nat)
    requires WeakInv(s) && Waiting(s, pid, t)
    ensures var c := Choose(s);
      && t' < |c.queue| && t' != s.cur && c.queue[t'].pid == pid && c.next != s.cur
      && (c.next == t' || (c.queue[t'] == s.queue[t] && Distance(Sched(c.queue, c.next, s.time), t') < Distance(s, t)))
  {
    hide Purge, Live, NextFrom;
    var k := NextFrom(s.queue, s.cur + 1, s.time);
    var live := |Live(s.queue[s.cur + 1..k])|;
    PurgeAt(s.queue, s.cur + 1, k, t);
    PurgeAt(s.queue, s.cur + 1, k, k);
    t' := if t > s.cur then t - k + s.cur + 1 + live else t;
  }

  /** Each yield brings a waiting process strictly closer, or makes it current. */
  lemma {:induction false} YieldAdvances(s: Sched, pid: u32, t: nat) returns (t': nat)
    requires WeakInv(s) && Waiting(s, pid, t)
    ensures Yield(s).cur < |Yield(s).queue| && Yield(s).time == s.time
    ensures Yield(s).queue[Yield(s).cur].pid == pid
      || (Waiting(Yield(s), pid, t') && Yield(s).queue[t'] == s.queue[t] && Distance(Yield(s), t') < Distance(s, t))
  {
    hide Choose;
    t' := ChooseAdvances(s, pid, t);
  }

  /** Before the yield, if any: the waiting process is where it was and is still due. */
  lemma {:induction false} PrepareKeepsWaiting(s: Sched, e: Event, pid: u32, t: nat, ticks: nat)
    requires Inv(s) && Applies(s, e) && Waiting(s, pid, t) && Spares(s, e, pid)
    requires StaysDue(s, t, ticks + if e.Tick? then 1 else 0)
    ensures Waiting(Prepare(s, e), pid, t) && StaysDue(Prepare(s, e), t, ticks)
    ensures Distance(Prepare(s, e), t) <= Distance(s, t) + (if e.Create? then 1 else 0)
  {}

  lemma {:induction false} StepAdvances(s: Sched, e: Event, pid: u32, t: nat, ticks: nat) returns (t': nat)
    requires Inv(s) && Applies(s, e) && Waiting(s, pid, t) && Spares(s, e, pid)
    requires StaysDue(s, t, ticks + if e.Tick? then 1 else 0)
    ensures Enabled(s, e) && Step(s, e).cur < |Step(s, e).queue|
    ensures Step(s, e).queue[Step(s, e).cur].pid == pid
      || (Waiting(Step(s, e), pid, t') && StaysDue(Step(s, e), t', ticks)
          && Distance(Step(s, e), t')
             <= Distance(s, t) - (if Yields(s, e) then 1 else 0) + (if e.Create? then 1 else 0))
  {
    hide Yield, Settles, Distance, Prepare, Inv, WeakInv, Applies, Eligible;
    PrepareKeepsWeakInv(s, e);
    PrepareKeepsWaiting(s, e, pid, t, ticks);
    t' := t;
    if Yields(s, e) {
      WaitingSettles(Prepare(s, e), pid, t);
      t' := YieldAdvances(Prepare(s, e), pid, t);
      YieldIsNoCreate(s, e);
    } else {
      PreparedIndex(s, e);
    }
  }

  lemma {:induction false} YieldIsNoCreate(s: Sched, e: Event)
    ensures Yields(s, e) ==> !e.Create?
  {}

  lemma {:induction false} PreparedIndex(s: Sched, e: Event)
    requires Applies(s, e)
    ensures Prepare(s, e).cur < |Prepare(s, e).queue|
  {}

  /** Bounded waiting. A process that is ready, or asleep with its wake time passed, and that is
      neither blocked nor terminated, becomes current before the run has used more yields than the
      queue is long, minus one, plus one for each process created meanwhile; and no scan hangs
      before that. */
  lemma {:induction false} BoundedWaitFrom(s: Sched, events: seq<Event>, pid: u32, t: nat, budget: nat)
    requires Inv(s) && Applicable(s, events) && DistinctPids(s.queue) && AllSpare(s, events, pid)
    requires Waiting(s, pid, t) && StaysDue(s, t, TickCount(events))
    requires Distance(s, t) + CreateCount(events) <= budget <= YieldCount(s, events)
    ensures BecomesCurrent(s, events, pid, budget)
    decreases |events|
  {
    hide Inv, Step, Settles, Prepare, DistinctPids, Spares, Waiting, Distance, Applies, StaysDue, Enabled;
    DistancePositive(s, pid, t);
    var e := events[0];
    var s1 := Step(s, e);
    var t' := StepAdvances(s, e, pid, t, TickCount(events[1..]));
    StepKeepsInv(s, e);
    StepDistinct(s, e, pid);
    if s1.queue[s1.cur].pid != pid {
      DistancePositive(s1, pid, t');
      BoundedWaitFrom(s1, events[1..], pid, t', budget - (if Yields(s, e) then 1 else 0));
    }
  }

  lemma {:induction false} DistancePositive(s: Sched, pid: u32, t: nat)
    requires Waiting(s, pid, t) && Inv(s)
    ensures 0 < Distance(s, t) <= |s.queue| - 1
  {}

  lemma {:induction false} BoundedWait(s: Sched, events: seq<Event>, pid: u32, t: nat)
    requires Inv(s) && Applicable(s, events) && DistinctPids(s.queue) && AllSpare(s, events, pid)
    requires Waiting(s, pid, t) && StaysDue(s, t, TickCount(events))
    requires YieldCount(s, events) >= |s.queue| - 1 + CreateCount(events)
    ensures BecomesCurrent(s, events, pid, |s.queue| - 1 + CreateCount(events))
  {
    DistancePositive(s, pid, t);
    BoundedWaitFrom(s, events, pid, t, |s.queue| - 1 + CreateCount(events));
  }

  /** Without wrap-around of the system time, every ten ticks hold a yield. */
  lemma {:induction false} TicksYield(s: Sched, events: seq<Event>)
    requires Applicable(s, events) && s.time + TickCount(events) < U32
    ensures YieldCount(s, events) >= (s.time + TickCount(events)) / 10 - s.time / 10
    decreases |events|
  {
    hide Settles, Step, Prepare, Applies;
    if events != [] {
      TimeOfStep(s, events[0]);
      TicksYield(Step(s, events[0]), events[1..]);
    }
  }

  function Ticks(n: nat): (events: seq<Event>)
    ensures |events| == n
  {
    if n == 0 then [] else [Tick] + Ticks(n - 1)
  }

  /** Ticks alone yield at every tenth, and at no other. */
  lemma {:induction false} TicksYieldExactly(s: Sched, n: nat)
    requires s.cur < |s.queue| && s.time + n < U32
    ensures Applicable(s, Ticks(n)) && YieldCount(s, Ticks(n)) == (s.time + n) / 10 - s.time / 10
    decreases n
  {
    hide Choose;
    if n > 0 {
      assert Ticks(n)[1..] == Ticks(n - 1);
      TimeOfStep(s, Tick);
      TicksYieldExactly(Step(s, Tick), n - 1);
    }
  }

  lemma {:induction false} TimeOfStep(s: Sched, e: Event)
    requires Applies(s, e)
    ensures Step(s, e).time == if e.Tick? then Add32(s.time, 1) else s.time
  {
    hide Choose;
  }

  /** So a process that is due runs within ten times that many timer ticks. */
  lemma {:induction false} BoundedWaitInTicks(s: Sched, events: seq<Event>, pid: u32, t: nat)
    requires Inv(s) && Applicable(s, events) && DistinctPids(s.queue) && AllSpare(s, events, pid)
    requires Waiting(s, pid, t) && TickCount(events) >= 10 * (|s.queue| - 1 + CreateCount(events))
    requires s.time + TickCount(events) < U32
    ensures BecomesCurrent(s, events, pid, |s.queue| - 1 + CreateCount(events))
  {
    TicksYield(s, events);
    BoundedWait(s, events, pid, t);
  }

  /** process_sleep can wake a process at once: exactly when the wake time has wrapped past zero,
      or for a sleep of no length; and a wake time that wraps to zero never comes. */
  lemma {:induction false} SleepWrap(s: Sched, ms: u32)
    requires Applies(s, Sleep(ms))
    ensures var p := Prepare(s, Sleep(ms)).queue[s.cur];
      && (Eligible(p, s.time) <==> s.time + ms > U32 || (ms == 0 && s.time > 0))
      && ((forall time: u32 :: !Eligible(p, time)) <==> s.time + ms == U32 || (ms == 0 && s.time == 0))
  {
    var p := Prepare(s, Sleep(ms)).queue[s.cur];
    var last: u32 := U32 - 1;
    assert Eligible(p, last) <==> p.sleepUntil != 0;
  }

  // ---------------------------------------------------------------- blocked processes

  /** Index t holds a blocked process called pid that is not current, and whose sleep_until, which
      nothing ever clears, is not reached within that many ticks. */
  predicate StaysBlocked(s: Sched, pid: u32, t: nat, ticks: nat) {
    && t < |s.queue| && t != s.cur && s.queue[t].pid == pid && s.queue[t].state.Blocked?
    && (s.queue[t].sleepUntil == 0 || s.time + ticks < s.queue[t].sleepUntil)
  }

  /** The event does not unblock or terminate the process called pid; a new process has a new name. */
  predicate LeavesBlocked(s: Sched, e: Event, pid: u32) {
    match e
    case Create(p) => forall i | 0 <= i < |s.queue| :: s.queue[i].pid != p
    case Unblock(i) => i < |s.queue| ==> s.queue[i].pid != pid
    case Terminate(i) => i < |s.queue| ==> s.queue[i].pid != pid
    case _ => true
  }

  predicate AllLeaveBlocked(s: Sched, events: seq<Event>, pid: u32)
    requires Applicable(s, events)
    decreases |events|
  {
    events == [] || (LeavesBlocked(s, events[0], pid) && AllLeaveBlocked(Step(s, events[0]), events[1..], pid))
  }

  /** pid is current after some event of the run. */
  predicate RunsSometime(s: Sched, events: seq<Event>, pid: u32)
    requires Applicable(s, events)
    decreases |events|
  {
    events != [] &&
    var s1 := Step(s, events[0]);
    (s1.cur < |s1.queue| && s1.queue[s1.cur].pid == pid) || RunsSometime(s1, events[1..], pid)
  }

  /** A blocked process that is not due survives a scan as it is. */
  lemma {:induction false} YieldLeavesBlocked(s: Sched, pid: u32, t: nat, ticks: nat) returns (t': nat)
    requires WeakInv(s) && DistinctPids(s.queue) && StaysBlocked(s, pid, t, ticks)
    ensures Yield(s).cur < |Yield(s).queue| && Yield(s).time == s.time && StaysBlocked(Yield(s), pid, t', ticks)
    ensures Yield(s).queue[Yield(s).cur].pid != pid
  {
    hide Purge, NextFrom, WeakInv;
    t' := ChooseLeavesBlocked(s, pid, t, ticks);
    ChooseDistinct(s);
    WeakInvCur(s);
  }

  lemma {:induction false} WeakInvCur(s: Sched)
    requires WeakInv(s)
    ensures s.cur < |s.queue| && !s.queue[0].state.Blocked?
  {}

  lemma {:induction false} LiveKeeps(q: seq<Pcb>, t: nat) returns (t': nat)
    requires t < |q| && !q[t].state.Terminated?
    ensures t' < |Live(q)| && Live(q)[t'] == q[t]
  {
    var n := |q| - 1;
    if t < n {
      t' := LiveKeeps(q[..n], t);
    } else {
      t' := |Live(q[..n])|;
    }
  }

  lemma {:induction false} PurgeKeeps(q: seq<Pcb>, lo: nat, hi: nat, t: nat) returns (t': nat)
    requires lo <= hi <= |q| && t < |q| && !q[t].state.Terminated?
    ensures t' < |Purge(q, lo, hi)| && Purge(q, lo, hi)[t'] == q[t]
  {
    hide Live;
    PurgeAt(q, lo, hi, t);
    if lo <= t < hi {
      var u := LiveKeeps(q[lo..hi], t - lo);
      t' := lo + u;
    } else {
      t' := if t < lo then t else t - hi + lo + |Live(q[lo..hi])|;
    }
  }

  lemma {:induction false} ChooseLeavesBlocked(s: Sched, pid: u32, t: nat, ticks: nat) returns (t': nat)
    requires WeakInv(s) && StaysBlocked(s, pid, t, ticks) && DistinctPids(s.queue)
    ensures var c := Choose(s);
      t' < |c.queue| && t' != s.cur && t' != c.next && c.queue[t'] == s.queue[t]
  {
    hide Purge, Live, NextFrom;
    var k := NextFrom(s.queue, s.cur + 1, s.time);
    var q := Purge(s.queue, s.cur + 1, k);
    t' := PurgeKeeps(s.queue, s.cur + 1, k, t);
    PurgeAt(s.queue, s.cur + 1, k, s.cur);
    PurgeAt(s.queue, s.cur + 1, k, 0);
    PurgeAt(s.queue, s.cur + 1, k, k);
    assert s.queue[s.cur].pid != pid;
  }

  lemma {:induction false} StepLeavesBlocked(s: Sched, e: Event, pid: u32, t: nat, ticks: nat) returns (t': nat)
    requires Inv(s) && Applies(s, e) && DistinctPids(s.queue) && LeavesBlocked(s, e, pid)
    requires StaysBlocked(s, pid, t, ticks + if e.Tick? then 1 else 0)
    ensures StaysBlocked(Step(s, e), pid, t', ticks) && DistinctPids(Step(s, e).queue)
    ensures Step(s, e).cur < |Step(s, e).queue| && Step(s, e).queue[Step(s, e).cur].pid != pid
  {
    hide Yield, Inv, WeakInv, Applies;
    PrepareKeepsWeakInv(s, e);
    PrepareLeavesBlocked(s, e, pid, t, ticks);
    t' := t;
    if Yields(s, e) {
      ChooseDistinct(Prepare(s, e));
      t' := YieldLeavesBlocked(Prepare(s, e), pid, t, ticks);
    }
  }

  lemma {:induction false} PrepareLeavesBlocked(s: Sched, e: Event, pid: u32, t: nat, ticks: nat)
    requires Inv(s) && Applies(s, e) && DistinctPids(s.queue) && LeavesBlocked(s, e, pid)
    requires StaysBlocked(s, pid, t, ticks + if e.Tick? then 1 else 0)
    ensures StaysBlocked(Prepare(s, e), pid, t, ticks) && DistinctPids(Prepare(s, e).queue)
    ensures Prepare(s, e).cur < |Prepare(s, e).queue| && Prepare(s, e).queue[Prepare(s, e).cur].pid != pid
  {}

  /** Over every run that does not unblock or terminate it, a blocked process never runs as long as its
      sleep_until is 0 or lies ahead. */
  lemma {:induction false} BlockedNeverRuns(s: Sched, events: seq<Event>, pid: u32, t: nat)
    requires Inv(s) && Applicable(s, events) && DistinctPids(s.queue) && AllLeaveBlocked(s, events, pid)
    requires StaysBlocked(s, pid, t, TickCount(events))
    ensures !RunsSometime(s, events, pid)
    decreases |events|
  {
    hide Inv, Step, Applies, DistinctPids, LeavesBlocked, StaysBlocked;
    if events != [] {
      var e := events[0];
      var t' := StepLeavesBlocked(s, e, pid, t, TickCount(events[1..]));
      StepStillInv(s, e);
      BlockedNeverRuns(Step(s, e), events[1..], pid, t');
    }
  }

  /** The invariant does not depend on whether the scan ends. */
  lemma {:induction false} StepStillInv(s: Sched, e: Event)
    requires Inv(s) && Applies(s, e)
    ensures Inv(Step(s, e))
  {
    hide Yield, Inv;
    PrepareKeepsWeakInv(s, e);
    if Yields(s, e) {
      YieldKeepsInv(Prepare(s, e));
    }
  }

  /** n calls of process_yield. */
  function AfterYields(s: Sched, n: nat): Sched
    decreases n
  {
    if n == 0 || s.cur >= |s.queue| then s else AfterYields(Yield(s), n - 1)
  }

  predicate IsCurrent(s: Sched, pid: u32) {
    s.cur < |s.queue| && s.queue[s.cur].pid == pid
  }

  lemma {:induction false} InvBounds(s: Sched)
    requires Inv(s)
    ensures s.cur < |s.queue| && WeakInv(s)
  {}

  lemma {:induction false} DueRuns(s: Sched, pid: u32, t: nat) returns (n: nat)
    requires Inv(s) && Waiting(s, pid, t)
    ensures IsCurrent(AfterYields(s, n), pid)
    decreases Distance(s, t)
  {
    hide Yield, Inv, WeakInv, Waiting, Distance;
    InvBounds(s);
    DistancePositive(s, pid, t);
    YieldKeepsInv(s);
    var t' := YieldAdvances(s, pid, t);
    if Yield(s).queue[Yield(s).cur].pid == pid {
      n := 1;
      assert AfterYields(Yield(s), 0) == Yield(s);
    } else {
      InvBounds(Yield(s));
      DistancePositive(Yield(s), pid, t');
      n := DueRuns(Yield(s), pid, t');
      n := n + 1;
    }
  }

  lemma {:induction false} NotDueNeverRuns(s: Sched, pid: u32, t: nat, n: nat)
    requires Inv(s) && DistinctPids(s.queue) && StaysBlocked(s, pid, t, 0)
    ensures !IsCurrent(AfterYields(s, n), pid)
    decreases n
  {
    hide Yield, Inv, WeakInv, DistinctPids;
    InvBounds(s);
    if n == 0 {
      BlockedIsNotCurrent(s, pid, t);
    } else {
      YieldKeepsInv(s);
      ChooseDistinct(s);
      var t' := YieldLeavesBlocked(s, pid, t, 0);
      NotDueNeverRuns(Yield(s), pid, t', n - 1);
    }
  }

  lemma {:induction false} BlockedIsNotCurrent(s: Sched, pid: u32, t: nat)
    requires DistinctPids(s.queue) && StaysBlocked(s, pid, t, 0) && s.cur < |s.queue|
    ensures s.queue[s.cur].pid != pid
  {}

  /** A process that is blocked and left alone is run by later yields if and only if it once slept and
      that wake time has passed: process_block does not clear sleep_until, and the scan makes every
      blocked process ready whose sleep_until is not 0 and not ahead. */
  lemma {:induction false} BlockedRunsExactly(s: Sched, pid: u32, t: nat)
    requires Inv(s) && DistinctPids(s.queue) && t < |s.queue| && t != s.cur
    requires s.queue[t].pid == pid && s.queue[t].state.Blocked?
    ensures (exists n :: IsCurrent(AfterYields(s, n), pid)) <==>
      s.queue[t].sleepUntil != 0 && s.queue[t].sleepUntil <= s.time
  {
    hide Inv, AfterYields, DistinctPids;
    if s.queue[t].sleepUntil != 0 && s.queue[t].sleepUntil <= s.time {
      var n := DueRuns(s, pid, t);
    } else {
      forall n: nat
        ensures !IsCurrent(AfterYields(s, n), pid)
      {
        NotDueNeverRuns(s, pid, t, n);
      }
    }
  }

  // ---------------------------------------------------------------- what each event does to a process

  /** Every block called pid is terminated, and none is current. */
  ghost predicate Dead(s: Sched, pid: u32) {
    forall i | 0 <= i < |s.queue| && s.queue[i].pid == pid :: s.queue[i].state.Terminated? && i != s.cur
  }

  /** The event blocks a block called pid, or creates one: process_block does not ask for the state. */
  predicate Revives(s: Sched, e: Event, pid: u32) {
    match e
    case Create(p) => p == pid
    case Block(i) => i < |s.queue| && s.queue[i].pid == pid
    case _ => false
  }

  predicate NoneRevives(s: Sched, events: seq<Event>, pid: u32)
    requires Applicable(s, events)
    decreases |events|
  {
    events == [] || (!Revives(s, events[0], pid) && NoneRevives(Step(s, events[0]), events[1..], pid))
  }

  lemma {:induction false} YieldKeepsDead(s: Sched, pid: u32)
    requires WeakInv(s) && (forall i | 0 <= i < |s.queue| && s.queue[i].pid == pid :: s.queue[i].state.Terminated?)
    ensures Dead(Yield(s), pid)
  {
    hide Purge, Live, NextFrom;
    var k := NextFrom(s.queue, s.cur + 1, s.time);
    var q := Purge(s.queue, s.cur + 1, k);
    PurgeAt(s.queue, s.cur + 1, k, s.cur);
    PurgeAt(s.queue, s.cur + 1, k, 0);
    PurgeAt(s.queue, s.cur + 1, k, k);
    forall i | 0 <= i < |q| && q[i].pid == pid
      ensures q[i].state.Terminated?
    {
      var j := Origin'(s.queue, s.cur + 1, k, i);
    }
    DeadAfterChoice(s, q, pid);
  }

  lemma {:induction false} DeadAfterChoice(s: Sched, q: seq<Pcb>, pid: u32)
    requires WeakInv(s) && q == Purge(s.queue, s.cur + 1, NextFrom(s.queue, s.cur + 1, s.time))
    requires s.cur < |q| && q[s.cur] == s.queue[s.cur] && q[0] == s.queue[0]
    requires forall i | 0 <= i < |q| && q[i].pid == pid :: q[i].state.Terminated?
    requires var k := NextFrom(s.queue, s.cur + 1, s.time);
      k < |s.queue| ==>
        var at := s.cur + 1 + |Live(s.queue[s.cur + 1..k])|;
        at < |q| && q[at] == s.queue[k]
    ensures Dead(Yield(s), pid)
  {
    hide Purge, Live, NextFrom;
  }

  /** A dead process stays dead under every event but the two that revive it. */
  lemma {:induction false} DeadStepExactly(s: Sched, e: Event, pid: u32)
    requires Inv(s) && Applies(s, e) && Dead(s, pid)
    ensures Dead(Step(s, e), pid) <==> !Revives(s, e, pid)
  {
    hide Yield;
    PrepareKeepsWeakInv(s, e);
    if Yields(s, e) {
      YieldKeepsDead(Prepare(s, e), pid);
    } else {
      PrepareDead(s, e, pid);
    }
  }

  lemma {:induction false} PrepareDead(s: Sched, e: Event, pid: u32)
    requires Inv(s) && Applies(s, e) && Dead(s, pid) && !Yields(s, e)
    ensures Dead(Prepare(s, e), pid) <==> !Revives(s, e, pid)
  {
    var s' := Prepare(s, e);
    match e
    case Create(p) => assert s'.queue[|s.queue|].pid == p;
    case Block(i) => assert s'.queue[i].pid == s.queue[i].pid;
    case _ =>
  }

  /** process_exit: the process that called it is dead. */
  lemma {:induction false} ExitKills(s: Sched)
    requires Inv(s) && DistinctPids(s.queue) && Applies(s, Exit)
    ensures s.cur < |s.queue| && Dead(Step(s, Exit), s.queue[s.cur].pid)
  {
    PrepareKeepsWeakInv(s, Exit);
    hide Yield, Inv, WeakInv;
    InvBounds(s);
    YieldKeepsDead(Prepare(s, Exit), s.queue[s.cur].pid);
  }

  /** process_terminate: the named process is dead, current or not. */
  lemma {:induction false} TerminateKills(s: Sched, i: nat)
    requires Inv(s) && DistinctPids(s.queue) && Applies(s, Terminate(i))
    ensures i < |s.queue| && Dead(Step(s, Terminate(i)), s.queue[i].pid)
  {
    PrepareKeepsWeakInv(s, Terminate(i));
    hide Yield, Inv, WeakInv;
    if i == s.cur {
      YieldKeepsDead(Prepare(s, Terminate(i)), s.queue[i].pid);
    }
  }

  /** Over every run in which nobody blocks it again or takes its name, a dead process never runs. */
  lemma {:induction false} DeadNeverRuns(s: Sched, events: seq<Event>, pid: u32)
    requires Inv(s) && Applicable(s, events) && Dead(s, pid) && NoneRevives(s, events, pid)
    ensures !RunsSometime(s, events, pid)
    decreases |events|
  {
    hide Inv, Step, Applies, Revives;
    if events != [] {
      DeadStepExactly(s, events[0], pid);
      StepStillInv(s, events[0]);
      DeadNeverRuns(Step(s, events[0]), events[1..], pid);
    }
  }

  /** process_block of a dead process revives it, exactly when it once slept and that wake time has
      passed: then later yields run it. */
  lemma {:induction false} BlockRevivesExactly(s: Sched, t: nat)
    requires Inv(s) && DistinctPids(s.queue) && 0 < t < |s.queue| && t != s.cur && s.queue[t].state.Terminated?
    ensures (exists n :: IsCurrent(AfterYields(Step(s, Block(t)), n), s.queue[t].pid)) <==>
      s.queue[t].sleepUntil != 0 && s.queue[t].sleepUntil <= s.time
  {
    hide AfterYields;
    StepDistinct(s, Block(t), s.queue[s.cur].pid);
    BlockedRunsExactly(Step(s, Block(t)), s.queue[t].pid, t);
  }

  /** After process_exit the process never runs again. */
  lemma {:induction false} ExitedNeverRuns(s: Sched, events: seq<Event>)
    requires Inv(s) && DistinctPids(s.queue) && Applies(s, Exit)
    requires Applicable(Step(s, Exit), events) && NoneRevives(Step(s, Exit), events, s.queue[s.cur].pid)
    ensures !RunsSometime(s, [Exit] + events, s.queue[s.cur].pid)
  {
    InvBounds(s);
    hide Inv, Step, Applies, Revives;
    var pid := s.queue[s.cur].pid;
    ExitKills(s);
    StepStillInv(s, Exit);
    DeadNeverRuns(Step(s, Exit), events, pid);
    assert ([Exit] + events)[1..] == events;
  }

  /** After process_terminate neither. */
  lemma {:induction false} TerminatedNeverRuns(s: Sched, i: nat, events: seq<Event>)
    requires Inv(s) && DistinctPids(s.queue) && Applies(s, Terminate(i)) && i < |s.queue|
    requires Applicable(Step(s, Terminate(i)), events) && NoneRevives(Step(s, Terminate(i)), events, s.queue[i].pid)
    ensures !RunsSometime(s, [Terminate(i)] + events, s.queue[i].pid)
  {
    hide Inv, Step, Applies, Revives;
    var pid := s.queue[i].pid;
    TerminateKills(s, i);
    StepStillInv(s, Terminate(i));
    DeadNeverRuns(Step(s, Terminate(i)), events, pid);
    assert ([Terminate(i)] + events)[1..] == events;
  }

  /** Once a scan has passed a dead block, no block carries its name. */
  lemma {:induction false} ScanUnlinks(s: Sched, pid: u32, t: nat)
    requires WeakInv(s) && DistinctPids(s.queue) && s.cur < t < NextFrom(s.queue, s.cur + 1, s.time)
    requires s.queue[t].pid == pid && s.queue[t].state.Terminated?
    ensures forall i | 0 <= i < |Yield(s).queue| :: Yield(s).queue[i].pid != pid
  {
    hide Live, NextFrom;
    var k := NextFrom(s.queue, s.cur + 1, s.time);
    var q := Purge(s.queue, s.cur + 1, k);
    forall i | 0 <= i < |q|
      ensures q[i].pid != pid
    {
      var j := Origin'(s.queue, s.cur + 1, k, i);
      PurgeAt(s.queue, s.cur + 1, k, i);
      assert j != t;
    }
    PurgeAt(s.queue, s.cur + 1, k, k);
    SamePids(s, q);
  }

  lemma {:induction false} SamePids(s: Sched, q: seq<Pcb>)
    requires s.cur < |s.queue| && q == Purge(s.queue, s.cur + 1, NextFrom(s.queue, s.cur + 1, s.time))
    ensures |Yield(s).queue| == |q| && forall i | 0 <= i < |q| :: Yield(s).queue[i].pid == q[i].pid
  {
    hide Purge, Live, NextFrom;
    PurgeAt(s.queue, s.cur + 1, NextFrom(s.queue, s.cur + 1, s.time), NextFrom(s.queue, s.cur + 1, s.time));
  }

  /** process_unblock: a blocked process waits for its turn, for good. */
  lemma {:induction false} UnblockWaits(s: Sched, i: nat, ticks: nat)
    requires i < |s.queue| && i != s.cur && s.cur < |s.queue| && s.queue[i].state.Blocked?
    ensures Waiting(Step(s, Unblock(i)), s.queue[i].pid, i) && StaysDue(Step(s, Unblock(i)), i, ticks)
  {}

  /** process_create: the new process waits at the end of the queue. */
  lemma {:induction false} CreateWaits(s: Sched, pid: u32, ticks: nat)
    requires s.cur < |s.queue|
    ensures Waiting(Step(s, Create(pid)), pid, |s.queue|) && StaysDue(Step(s, Create(pid)), |s.queue|, ticks)
    ensures Step(s, Create(pid)).queue == s.queue + [Pcb(pid, Ready, 0)]
  {}

  /** process_block of another process: it stays blocked until its sleep_until, if it has one. */
  lemma {:induction false} BlockStays(s: Sched, i: nat, ticks: nat)
    requires Inv(s) && 0 < i < |s.queue| && i != s.cur
    requires s.queue[i].sleepUntil == 0 || s.time + ticks < s.queue[i].sleepUntil
    ensures StaysBlocked(Step(s, Block(i)), s.queue[i].pid, i, ticks)
  {}

  /** process_block of oneself: the same, and another process runs. */
  lemma {:induction false} BlockSelfStays(s: Sched, ticks: nat) returns (t: nat)
    requires Inv(s) && DistinctPids(s.queue) && Applies(s, Block(s.cur)) && s.cur < |s.queue|
    requires s.queue[s.cur].sleepUntil == 0 || s.time + ticks < s.queue[s.cur].sleepUntil
    ensures StaysBlocked(Step(s, Block(s.cur)), s.queue[s.cur].pid, t, ticks)
  {
    PrepareKeepsWeakInv(s, Block(s.cur));
    t := SelfLeavesBlocked(Prepare(s, Block(s.cur)), ticks);
  }

  /** process_sleep: asleep until the wake time, which is the time plus the length, in 32 bits. */
  lemma {:induction false} SleepStays(s: Sched, ms: u32, ticks: nat) returns (t: nat)
    requires Inv(s) && DistinctPids(s.queue) && Applies(s, Sleep(ms)) && s.cur < |s.queue|
    requires s.time + ms < U32 && ticks < ms
    ensures StaysBlocked(Step(s, Sleep(ms)), s.queue[s.cur].pid, t, ticks)
    ensures Step(s, Sleep(ms)).queue[t].sleepUntil == s.time + ms
  {
    PrepareKeepsWeakInv(s, Sleep(ms));
    t := SelfLeavesBlocked(Prepare(s, Sleep(ms)), ticks);
  }

  /** A current process that has become blocked keeps its block, and another one is current. */
  lemma {:induction false} SelfLeavesBlocked(s: Sched, ticks: nat) returns (t: nat)
    requires WeakInv(s) && s.cur != 0 && s.queue[s.cur].state.Blocked?
    requires s.queue[s.cur].sleepUntil == 0 || s.time + ticks < s.queue[s.cur].sleepUntil
    ensures StaysBlocked(Yield(s), s.queue[s.cur].pid, t, ticks) && Yield(s).queue[t] == s.queue[s.cur]
  {
    hide Purge, Live, NextFrom;
    ChooseKeepsWeakInv(s);
    t := s.cur;
  }
}
