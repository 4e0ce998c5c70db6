/** The process list of proc/process.c as linked control blocks, scheduled round robin. */
module Scheduler {
  import opened Bits
  import opened SchedSpec
  import opened SchedScan
  import opened Seqs

  class Process {
    var pid: u32
    var state: ProcState
    var sleepUntil: u32
    var next: Process?

    constructor (pid: u32, state: ProcState)
      ensures this.pid == pid && this.state == state && sleepUntil == 0 && next == null
    {
      this.pid, this.state, sleepUntil, next := pid, state, 0, null;
    }

    ghost predicate Shows(b: Pcb)
      reads this
    {
      pid == b.pid && state == b.state && sleepUntil == b.sleepUntil
    }
  }

  /** The next pointer of the block at index i. */
  ghost predicate LinksTo(p: Process, nodes: seq<Process>, i: nat)
    requires i < |nodes|
    reads p
  {
    p.next == if i + 1 < |nodes| then nodes[i + 1] else null
  }

  class ProcessList {
    var list: Process      // process_list
    var current: Process   // current_process
    var time: u32          // system_time
    ghost var nodes: seq<Process>
    ghost var view: seq<Pcb>
    ghost var cur: nat

    /** Only the idle process, running (process_init). */
    constructor ()
      ensures Linked() && fresh(nodes)
      ensures Abs() == Sched([Pcb(0, Running, 0)], 0, 0)
    {
      var idle := new Process(0, Running);
      list, current, time := idle, idle, 0;
      nodes, view, cur := [idle], [Pcb(0, Running, 0)], 0;
    }

    /** The list runs through `nodes` in order and shows `view`. */
    ghost predicate Linked()
      reads this, nodes
    {
      && |nodes| == |view| && cur < |nodes| && list == nodes[0] && current == nodes[cur]
      && Distinct(nodes)
      && (forall i {:trigger LinksTo(nodes[i], nodes, i)} | 0 <= i < |nodes| :: LinksTo(nodes[i], nodes, i))
      && (forall i {:trigger nodes[i].Shows(view[i])} | 0 <= i < |nodes| :: nodes[i].Shows(view[i]))
    }

    ghost function Abs(): Sched
      reads this
    {
      Sched(view, cur, time)
    }

    /** The removal branch of process_get_next: find the predecessor and skip the block. */
    method Unlink(dead: Process, ghost pos: nat)
      requires Linked() && cur < pos < |nodes| && nodes[pos] == dead
      modifies `nodes, `view, nodes
      ensures Linked() && nodes == Without(old(nodes), pos) && view == Without(old(view), pos)
      ensures forall i | 0 <= i < |nodes| :: nodes[i] in old(nodes)
    {
      var prev: Process? := list;
      ghost var i := 0;
      while prev != null && prev.next != dead
        invariant 0 <= i < pos && prev == nodes[i]
        decreases pos - i
        modifies {}
      {
        assert LinksTo(nodes[i], nodes, i);
        prev := prev.next;
        i := i + 1;
      }
      assert LinksTo(nodes[i], nodes, i);
      assert i == pos - 1 && LinksTo(nodes[pos], nodes, pos);
      if prev != null {
        prev.next := dead.next;
      }
      WithoutDistinct(nodes, pos);
      nodes := Without(nodes, pos);
      view := Without(view, pos);
      forall j | 0 <= j < |nodes|
        ensures LinksTo(nodes[j], nodes, j) && nodes[j].Shows(view[j])
      {
        var was := if j < pos then j else j + 1;
        assert nodes[j] == old(nodes)[was] && view[j] == old(view)[was];
        assert old(LinksTo(nodes[was], nodes, was) && nodes[was].Shows(view[was]));
        assert was != pos - 1 ==> nodes[j] != prev;
        if j + 1 < |nodes| {
          assert nodes[j + 1] == old(nodes)[if j + 1 < pos then j + 1 else j + 2];
        }
      }
    }

    method SetState(p: Process, ghost i: nat, state: ProcState)
      requires Linked() && i < |nodes| && nodes[i] == p
      modifies `view, p`state
      ensures Linked() && view == old(view)[i := old(view)[i].(state := state)]
    {
      p.state := state;
      view := view[i := view[i].(state := state)];
      forall j | 0 <= j < |nodes|
        ensures LinksTo(nodes[j], nodes, j) && nodes[j].Shows(view[j])
      {
        assert old(LinksTo(nodes[j], nodes, j) && nodes[j].Shows(view[j]));
        assert j != i ==> nodes[j] != p;
      }
    }

    /** The part of an iteration that moves on from a block that cannot run, up to the loop test. */
    method PassOver(next: Process, start: Process, ghost sc: Scan) returns (after: Process)
      requires Linked() && sc.Scanning? && ScanOk(sc) && sc.q == view && nodes[sc.pos] == next
      requires StartIs(start, sc.start) && !Eligible(view[sc.pos], time)
      requires next.state == Terminated ==> cur < sc.pos
      modifies `nodes, `view, nodes
      ensures Linked() && ScanStep(sc, time).q == view && !ScanStep(sc, time).Found?
      ensures ScanStep(sc, time).Scanning? <==> after != start
      ensures ScanStep(sc, time).Scanning? ==>
        var sc' := ScanStep(sc, time);
        sc'.pos < |nodes| && after == nodes[sc'.pos] && StartIs(start, sc'.start)
      ensures forall i | 0 <= i < |nodes| :: nodes[i] in old(nodes)
    {
      ghost var pos := sc.pos;
      assert LinksTo(nodes[pos], nodes, pos) && nodes[pos].Shows(view[pos]);
      after := if next.next != null then next.next else list;
      if next.state == Terminated {
        StartMoves(start, sc.start, pos);
        Unlink(next, pos);
        assert pos < |nodes| ==> nodes[pos] == old(nodes)[pos + 1];
      }
    }

    /** process_get_next. */
    method GetNext() returns (next: Process)
      requires Linked() && WeakInv(Abs()) && Settles(Abs())
      modifies `nodes, `view, nodes
      ensures Linked()
      ensures view == old(Choose(Abs())).queue
      ensures old(Choose(Abs())).next < |nodes| && next == nodes[old(Choose(Abs())).next]
      ensures forall i | 0 <= i < |nodes| :: nodes[i] in old(nodes)
    {
      hide Live, Purge, Choose, WeakInv, ScanAt, Settles, ScanStep, Distinct;
      ghost var s0 := Abs();
      ghost var sc := Begin(s0);
      ghost var k := s0.cur + 1;
      BeginAt(s0);
      assert LinksTo(nodes[cur], nodes, cur);
      next := if current.next != null then current.next else list;
      var start := next;
      while true
        invariant Linked() && ScanAt(s0, k, sc) && ScanOk(sc) && sc.Scanning? && sc.q == view && s0.cur == cur
        invariant next == nodes[sc.pos] && StartIs(start, sc.start)
        invariant forall i | 0 <= i < |nodes| :: nodes[i] in old(nodes)
        invariant s0.cur < k <= |s0.queue|
        decreases |s0.queue| - k
      {
        ScanAtOk(s0, k, sc);
        ScanProgress(s0, k, sc);
        assert nodes[sc.pos].Shows(view[sc.pos]);
        StepOnEligible(sc, time);
        if next.state == Ready {
          assert view[sc.pos := view[sc.pos].(state := Ready)] == view;
          return;
        }
        if next.state == Blocked && next.sleepUntil != 0 && next.sleepUntil <= time {
          SetState(next, sc.pos, Ready);
          return;
        }
        next := PassOver(next, start, sc);
        sc := ScanStep(sc, time);
        k := k + 1;
        if next == start {
          break;
        }
      }
      next := list;
    }

    /** process_switch: the bookkeeping around the register switch. */
    method Switch(next: Process, ghost to: nat)
      requires Linked() && to < |nodes| && nodes[to] == next
      modifies `current, `cur, `view, current`state, next`state
      ensures Linked() && nodes == old(nodes) && Abs() == SwitchTo(old(Abs()), to)
    {
      var prev := current;
      assert nodes[cur].Shows(view[cur]);
      if prev.state == Running {
        SetState(prev, cur, Ready);
      }
      assert view == old(SwitchTo(Abs(), cur)).queue[cur := view[cur]];
      current := next;
      cur := to;
      SetState(next, to, Running);
    }

    /** process_yield. */
    method YieldCpu()
      requires Linked() && WeakInv(Abs()) && Settles(Abs())
      modifies this, nodes
      ensures Linked() && Abs() == Yield(old(Abs())) && Inv(Abs())
      ensures forall i | 0 <= i < |nodes| :: nodes[i] in old(nodes)
    {
      hide Choose, WeakInv, Settles, Inv;
      ghost var s := Abs();
      ChooseBounds(s);
      YieldKeepsInv(s);
      var next := GetNext();
      SameIndex(nodes, Choose(s).next, cur);
      if next == current {
        return;
      }
      assert nodes[cur] in nodes && next in nodes;
      Switch(next, Choose(s).next);
    }

    /** process_timer_tick. */
    method TimerTick()
      requires Linked() && Inv(Abs()) && Enabled(Abs(), Tick)
      modifies this, nodes
      ensures Linked() && Abs() == Step(old(Abs()), Tick) && Inv(Abs())
    {
      hide Choose, Settles, Yield;
      PrepareKeepsWeakInv(Abs(), Tick);
      time := Add32(time, 1);
      assert Linked();
      if time % 10 == 0 {
        YieldCpu();
      }
    }

    /** process_sleep. */
    method SleepFor(ms: u32)
      requires Linked() && Inv(Abs()) && Enabled(Abs(), Sleep(ms))
      modifies this, nodes
      ensures Linked() && Abs() == Step(old(Abs()), Sleep(ms)) && Inv(Abs())
    {
      hide Choose, Settles, Yield;
      PrepareKeepsWeakInv(Abs(), Sleep(ms));
      SetWake(current, cur, Add32(time, ms));
      SetState(current, cur, Blocked);
      assert Abs() == Prepare(old(Abs()), Sleep(ms));
      YieldCpu();
    }

    method SetWake(p: Process, ghost i: nat, until: u32)
      requires Linked() && i < |nodes| && nodes[i] == p
      modifies `view, p`sleepUntil
      ensures Linked() && view == old(view)[i := old(view)[i].(sleepUntil := until)]
    {
      p.sleepUntil := until;
      view := view[i := view[i].(sleepUntil := until)];
      forall j | 0 <= j < |nodes|
        ensures LinksTo(nodes[j], nodes, j) && nodes[j].Shows(view[j])
      {
        assert old(LinksTo(nodes[j], nodes, j) && nodes[j].Shows(view[j]));
        assert j != i ==> nodes[j] != p;
      }
    }

    /** process_exit. */
    method ExitCurrent()
      requires Linked() && Inv(Abs()) && Enabled(Abs(), Exit)
      modifies this, nodes
      ensures Linked() && Abs() == Step(old(Abs()), Exit) && Inv(Abs())
    {
      hide Choose, Settles, Yield;
      PrepareKeepsWeakInv(Abs(), Exit);
      SetState(current, cur, Terminated);
      YieldCpu();
    }

    /** process_block, on the process at index i. */
    method BlockProcess(proc: Process, ghost i: nat)
      requires Linked() && Inv(Abs()) && Enabled(Abs(), Block(i)) && nodes[i] == proc
      modifies this, nodes
      ensures Linked() && Abs() == Step(old(Abs()), Block(i)) && Inv(Abs())
    {
      hide Choose, Settles, Yield;
      PrepareKeepsWeakInv(Abs(), Block(i));
      SetState(proc, i, Blocked);
      SameIndex(nodes, i, cur);
      if proc == current {
        YieldCpu();
      }
    }

    /** process_unblock. */
    method UnblockProcess(proc: Process, ghost i: nat)
      requires Linked() && Inv(Abs()) && Enabled(Abs(), Unblock(i)) && nodes[i] == proc
      modifies this, nodes
      ensures Linked() && Abs() == Step(old(Abs()), Unblock(i)) && Inv(Abs())
    {
      hide Choose, Settles, Yield;
      PrepareKeepsWeakInv(Abs(), Unblock(i));
      assert nodes[i].Shows(view[i]);
      if proc.state == Blocked {
        SetState(proc, i, Ready);
      }
    }

    /** process_terminate. */
    method TerminateProcess(proc: Process, ghost i: nat)
      requires Linked() && Inv(Abs()) && Enabled(Abs(), Terminate(i)) && nodes[i] == proc
      modifies this, nodes
      ensures Linked() && Abs() == Step(old(Abs()), Terminate(i)) && Inv(Abs())
    {
      hide Choose, Settles, Yield;
      PrepareKeepsWeakInv(Abs(), Terminate(i));
      SetState(proc, i, Terminated);
      SameIndex(nodes, i, cur);
      if proc == current {
        YieldCpu();
      }
    }

    /** The end of process_create: the new block goes to the tail. */
    method Append(pid: u32) returns (proc: Process)
      requires Linked() && Inv(Abs())
      modifies this, nodes
      ensures Linked() && fresh(proc) && nodes == old(nodes) + [proc]
      ensures Abs() == Step(old(Abs()), Create(pid)) && Inv(Abs())
    {
      hide Choose, Settles, Yield, Inv;
      PrepareKeepsWeakInv(Abs(), Create(pid));
      proc := new Process(pid, Ready);
      AddLast(proc, Pcb(pid, Ready, 0));
    }

    /** p->next = proc, for the last p of the list. */
    method AddLast(proc: Process, ghost b: Pcb)
      requires Linked() && proc !in nodes && proc.next == null && proc.Shows(b)
      modifies `nodes, `view, nodes
      ensures Linked() && nodes == old(nodes) + [proc] && view == old(view) + [b]
    {
      hide Distinct;
      var p := FindLast();
      LastDistinct(nodes, proc);
      p.next := proc;
      nodes := nodes + [proc];
      view := view + [b];
      forall j | 0 <= j < |nodes|
        ensures LinksTo(nodes[j], nodes, j) && nodes[j].Shows(view[j])
      {
        if j < |nodes| - 1 {
          assert nodes[j] == old(nodes)[j] && view[j] == old(view)[j];
          assert old(LinksTo(nodes[j], nodes, j) && nodes[j].Shows(view[j]));
          assert j < |nodes| - 2 ==> nodes[j] != p by {
            if j < |nodes| - 2 {
              NotLast(old(nodes), j);
            }
          }
        }
      }
    }

    /** The block the loop test compares against: still listed at index i, or gone. */
    ghost predicate StartIs(start: Process, i: int)
      reads this
    {
      if i == -1 then start !in nodes else 0 <= i < |nodes| && start == nodes[i]
    }

    /** The walk to the end of the list. */
    method FindLast() returns (p: Process)
      requires Linked()
      ensures p == nodes[|nodes| - 1] && p.next == null
    {
      p := list;
      ghost var i := 0;
      assert LinksTo(nodes[0], nodes, 0);
      while p.next != null
        invariant 0 <= i < |nodes| && p == nodes[i] && LinksTo(nodes[i], nodes, i)
        decreases |nodes| - i
      {
        p := p.next;
        i := i + 1;
        assert LinksTo(nodes[i], nodes, i);
      }
    }

    lemma {:induction false} StartMoves(start: Process, i: int, pos: nat)
      requires Linked() && StartIs(start, i) && pos < |nodes|
      ensures if i == -1 || i == pos then start !in Without(nodes, pos)
        else start == Without(nodes, pos)[if i > pos then i - 1 else i]
    {
      WithoutDistinct(nodes, pos);
      if i != -1 {
        WithoutAt(nodes, pos, i);
      }
    }
  }

  lemma {:induction false} NotLast(nodes: seq<Process>, j: nat)
    requires Distinct(nodes) && j < |nodes| - 1
    ensures nodes[j] != nodes[|nodes| - 1]
  {}

  lemma {:induction false} LastDistinct(nodes: seq<Process>, last: Process)
    requires Distinct(nodes) && last !in nodes
    ensures Distinct(nodes + [last])
  {}

  lemma {:induction false} ChooseBounds(s: Sched)
    requires WeakInv(s)
    ensures s.cur < |s.queue| && Choose(s).next < |Choose(s).queue| && s.cur < |Choose(s).queue|
  {}

  lemma {:induction false} SameIndex(s: seq<Process>, i: nat, j: nat)
    requires Distinct(s) && i < |s| && j < |s|
    ensures s[i] == s[j] <==> i == j
  {}

  lemma {:induction false} StepOnEligible(sc: Scan, time: u32)
    requires sc.Scanning? && ScanOk(sc)
    ensures Eligible(sc.q[sc.pos], time) ==>
      ScanStep(sc, time) == Found(sc.q[sc.pos := sc.q[sc.pos].(state := Ready)], sc.pos)
  {}

  /** What an iteration that starts on block k leads to. */
  lemma {:induction false} ScanProgress(s: Sched, k: nat, sc: Scan)
    requires ScanAt(s, k, sc) && ScanOk(sc) && Settles(s)
    ensures var next := ScanStep(sc, s.time);
      if next.Scanning? then k < |s.queue| && ScanAt(s, k + 1, next) && ScanOk(next)
      else IsChoice(s, next)
  {
    hide Live, Purge, Choose;
    ScanAtOk(s, k, sc);
    if k == |s.queue| {
      ScanWraps(s, sc);
    } else if Eligible(s.queue[k], s.time) {
      ScanFinds(s, k, sc);
    } else {
      ScanPasses(s, k, sc);
      ScanAtOk(s, k + 1, ScanStep(sc, s.time));
    }
  }
}
