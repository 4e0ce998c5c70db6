/** The round-robin scheduler (proc/process.c) on values: a queue of process control blocks with
    the idle process at its head, the index of the current process, and the system time. */
module SchedSpec {
  import opened Bits

  datatype ProcState = Ready | Running | Blocked | Terminated

  datatype Pcb = Pcb(pid: u32, state: ProcState, sleepUntil: u32)

  datatype Sched = Sched(queue: seq<Pcb>, cur: nat, time: u32)

  /** Ready, or asleep with a wake time that has passed. */
  predicate Eligible(p: Pcb, time: u32) {
    p.state.Ready? || (p.state.Blocked? && p.sleepUntil != 0 && p.sleepUntil <= time)
  }

  /** The least eligible index at or after i, or |q|. */
  function NextFrom(q: seq<Pcb>, i: nat, time: u32): (k: nat)
    requires i <= |q|
    ensures i <= k <= |q|
    ensures forall j | i <= j < k :: !Eligible(q[j], time)
    ensures k < |q| ==> Eligible(q[k], time)
    decreases |q| - i
  {
    if i == |q| || Eligible(q[i], time) then i else NextFrom(q, i + 1, time)
  }

  /** The blocks that survive a scan: those not terminated, in order. */
  function Live(q: seq<Pcb>): (r: seq<Pcb>)
    ensures |r| <= |q|
    ensures forall p | p in r :: p in q && !p.state.Terminated?
  {
    if q == [] then []
    else Live(q[..|q| - 1]) + (if q[|q| - 1].state.Terminated? then [] else [q[|q| - 1]])
  }

  /** The queue after the terminated blocks in [lo, hi) are unlinked. */
  function Purge(q: seq<Pcb>, lo: nat, hi: nat): seq<Pcb>
    requires lo <= hi <= |q|
  {
    q[..lo] + Live(q[lo..hi]) + q[hi..]
  }

  /** process_get_next: the queue it leaves and the index of the block it returns. */
  datatype Choice = Choice(queue: seq<Pcb>, next: nat)

  function Choose(s: Sched): (c: Choice)
    requires s.cur < |s.queue|
    ensures s.cur < |c.queue| && c.next < |c.queue|
  {
    var k := NextFrom(s.queue, s.cur + 1, s.time);
    var q := Purge(s.queue, s.cur + 1, k);
    if k == |s.queue| then Choice(q, 0)
    else
      var at := s.cur + 1 + |Live(s.queue[s.cur + 1..k])|;
      Choice(q[at := q[at].(state := Ready)], at)
  }

  /** process_switch, without the register and address-space switch. */
  function SwitchTo(s: Sched, next: nat): Sched
    requires s.cur < |s.queue| && next < |s.queue|
  {
    var prev := s.queue[s.cur];
    var q := s.queue[s.cur := if prev.state.Running? then prev.(state := Ready) else prev];
    Sched(q[next := q[next].(state := Running)], next, s.time)
  }

  /** process_yield. */
  function Yield(s: Sched): Sched
    requires s.cur < |s.queue|
  {
    var c := Choose(s);
    if c.next == s.cur then s.(queue := c.queue)
    else SwitchTo(s.(queue := c.queue), c.next)
  }

  /** The loop of process_get_next ends: the current process is not idle, or some other process
      is eligible, or the process after idle is absent or not terminated. */
  predicate Settles(s: Sched) {
    s.cur < |s.queue| &&
    (s.cur != 0 || |s.queue| == 1 || !s.queue[1].state.Terminated?
     || NextFrom(s.queue, 1, s.time) < |s.queue|)
  }

  /** Idle heads the queue and is never blocked or terminated; only the current process runs;
      idle is ready whenever it is not current. The current block itself may already be blocked
      or terminated, as it is on the way into process_yield. */
  predicate WeakInv(s: Sched) {
    && s.cur < |s.queue|
    && (forall i | 0 <= i < |s.queue| :: s.queue[i].state.Running? ==> i == s.cur)
    && s.queue[0].state == if s.cur == 0 then Running else Ready
  }

  predicate Inv(s: Sched) {
    WeakInv(s) && s.queue[s.cur].state.Running?
  }

  datatype Event =
    | YieldCall
    | Tick
    | Sleep(ms: u32)
    | Exit
    | Block(i: nat)
    | Unblock(i: nat)
    | Terminate(i: nat)
    | Create(pid: u32)

  function SetState(s: Sched, i: nat, st: ProcState): Sched
    requires i < |s.queue|
  {
    s.(queue := s.queue[i := s.queue[i].(state := st)])
  }

  /** The state in which an event calls process_yield, or in which it ends without doing so. */
  function Prepare(s: Sched, e: Event): Sched
    requires Applies(s, e)
  {
    match e
    case YieldCall => s
    case Tick => s.(time := Add32(s.time, 1))
    case Sleep(ms) =>
      s.(queue := s.queue[s.cur := s.queue[s.cur].(sleepUntil := Add32(s.time, ms), state := Blocked)])
    case Exit => SetState(s, s.cur, Terminated)
    case Block(i) => SetState(s, i, Blocked)
    case Unblock(i) => if s.queue[i].state.Blocked? then SetState(s, i, Ready) else s
    case Terminate(i) => SetState(s, i, Terminated)
    case Create(pid) => s.(queue := s.queue + [Pcb(pid, Ready, 0)])
  }

  predicate Yields(s: Sched, e: Event) {
    match e
    case YieldCall => true
    case Tick => Add32(s.time, 1) % 10 == 0
    case Sleep(_) => true
    case Exit => true
    case Block(i) => i == s.cur
    case Terminate(i) => i == s.cur
    case Unblock(_) => false
    case Create(_) => false
  }

  /** Arguments name queued processes, and idle is never blocked, put to sleep or terminated. */
  predicate Applies(s: Sched, e: Event) {
    && s.cur < |s.queue|
    && match e
       case Sleep(_) => s.cur != 0
       case Exit => s.cur != 0
       case Block(i) => 0 < i < |s.queue|
       case Unblock(i) => i < |s.queue|
       case Terminate(i) => 0 < i < |s.queue|
       case _ => true
  }

  /** The event can happen, and the scan it starts (if any) ends. */
  predicate Enabled(s: Sched, e: Event) {
    Applies(s, e) && (Yields(s, e) ==> Settles(Prepare(s, e)))
  }

  function Step(s: Sched, e: Event): Sched
    requires Applies(s, e)
  {
    if Yields(s, e) then Yield(Prepare(s, e)) else Prepare(s, e)
  }

  /** The scan keeps the current block and everything up to it, and everything from the choice on. */
  lemma {:induction false} PurgeAt(q: seq<Pcb>, lo: nat, hi: nat, i: nat)
    requires lo <= hi <= |q|
    ensures |Purge(q, lo, hi)| == lo + |Live(q[lo..hi])| + (|q| - hi)
    ensures i < lo ==> Purge(q, lo, hi)[i] == q[i]
    ensures hi <= i < |q| ==> Purge(q, lo, hi)[i - hi + lo + |Live(q[lo..hi])|] == q[i]
    ensures lo <= i < lo + |Live(q[lo..hi])| ==>
      Purge(q, lo, hi)[i] in q[lo..hi] && !Purge(q, lo, hi)[i].state.Terminated?
  {
    var live := Live(q[lo..hi]);
    assert lo <= i < lo + |live| ==> Purge(q, lo, hi)[i] == live[i - lo] && live[i - lo] in live;
  }

  /** Where a block of the scanned queue came from. */
  lemma {:induction false} Origin(q: seq<Pcb>, lo: nat, hi: nat, i: nat) returns (j: nat)
    requires lo <= hi <= |q| && i < |Purge(q, lo, hi)|
    ensures j < |q| && Purge(q, lo, hi)[i] == q[j]
    ensures if i < lo then j == i else lo <= j
  {
    hide Live;
    var live := |Live(q[lo..hi])|;
    PurgeAt(q, lo, hi, i);
    if i < lo {
      j := i;
    } else if i < lo + live {
      j :| lo <= j < hi && q[j] == Purge(q, lo, hi)[i];
    } else {
      j := i - lo - live + hi;
      PurgeAt(q, lo, hi, j);
    }
  }

  lemma {:induction false} PrepareKeepsWeakInv(s: Sched, e: Event)
    requires Inv(s) && Applies(s, e)
    ensures WeakInv(Prepare(s, e))
    ensures !Yields(s, e) ==> Inv(Prepare(s, e))
  {
  }

  lemma {:induction false} ChooseKeepsWeakInv(s: Sched)
    requires WeakInv(s)
    ensures WeakInv(s.(queue := Choose(s).queue))
    ensures Choose(s).queue[s.cur] == s.queue[s.cur]
    ensures Choose(s).next != s.cur ==> Choose(s).queue[Choose(s).next].state.Ready?
    ensures Choose(s).next == s.cur ==> s.cur == 0
  {
    hide Purge, Live, NextFrom;
    var k := NextFrom(s.queue, s.cur + 1, s.time);
    var q := Purge(s.queue, s.cur + 1, k);
    PurgeAt(s.queue, s.cur + 1, k, s.cur);
    PurgeAt(s.queue, s.cur + 1, k, 0);
    forall i | 0 <= i < |q| && q[i].state.Running?
      ensures i == s.cur
    {
      var j := Origin(s.queue, s.cur + 1, k, i);
    }
  }

  /** Every yield leaves exactly the current process running. */
  lemma {:induction false} YieldKeepsInv(s: Sched)
    requires WeakInv(s)
    ensures Inv(Yield(s))
  {
    hide NextFrom, Purge, Live, Choose;
    ChooseKeepsWeakInv(s);
  }

  /** Every scheduler step keeps the invariant. */
  lemma {:induction false} StepKeepsInv(s: Sched, e: Event)
    requires Inv(s) && Enabled(s, e)
    ensures Inv(Step(s, e))
  {
    hide Yield, Inv;
    PrepareKeepsWeakInv(s, e);
    if Yields(s, e) {
      YieldKeepsInv(Prepare(s, e));
    }
  }
}
