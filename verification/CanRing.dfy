/** The CAN receive ring (drivers/can.c): the interrupt, which runs to completion, against
    can_receive_frame, which it can interrupt between any two of its accesses. */
module CanRing {
  import opened Bits
  import opened CanFrames

  const SIZE: nat := 64        // CAN_RX_BUFFER_SIZE
  const FILTERS: nat := 14     // CAN_MAX_FILTERS

  /** Where the caller is inside can_receive_frame. */
  datatype Phase =
    | Idle                                             // outside the function
    | Found                                            // the ring was seen to be non-empty
    | Half(id: u32, extended: bool, rtr: bool)    // the first fields are copied
    | Copied(f: Frame)                                 // all of the frame is copied

  /** Ring, filter table and phase; and, to state what the ring is for, every frame ever put in and
      every frame returned. */
  datatype State = State(buf: seq<Frame>, head: nat, tail: nat, phase: Phase,
                         filters: seq<Filter>, used: seq<bool>,
                         queued: seq<Frame>, delivered: seq<Frame>)

  predicate Shape(s: State) {
    |s.buf| == SIZE && s.head < SIZE && s.tail < SIZE && |s.filters| == FILTERS && |s.used| == FILTERS
  }

  function Slot(j: nat): (i: nat)
    ensures i < SIZE
  {
    j % 64
  }

  /** Some active filter matches. */
  predicate Accepted(filters: seq<Filter>, used: seq<bool>, f: Frame)
    requires |filters| == |used|
  {
    exists i | 0 <= i < |filters| :: used[i] && Matches(f, filters[i])
  }

  /** One frame in can_process_rx_interrupt. */
  function Interrupt(s: State, f: Frame): (s': State)
    requires Shape(s)
    ensures Shape(s')
  {
    var next := Slot(s.head + 1);
    if Accepted(s.filters, s.used, f) && next != s.tail
    then s.(buf := s.buf[s.head := f], head := next, queued := s.queued + [f])
    else s
  }

  /** The next access of can_receive_frame: test, copy in two parts, move the tail. */
  function Consume(s: State): (s': State)
    requires Shape(s)
    ensures Shape(s')
  {
    var f := s.buf[s.tail];
    match s.phase
    case Idle => if s.head == s.tail then s else s.(phase := Found)
    case Found => s.(phase := Half(f.id, f.extended, f.rtr))
    case Half(id, extended, rtr) => s.(phase := Copied(Frame(id, extended, rtr, f.dlc, f.data)))
    case Copied(g) => s.(phase := Idle, tail := Slot(s.tail + 1), delivered := s.delivered + [g])
  }

  /** The first unused filter place; |used| if there is none. */
  function FirstUnused(used: seq<bool>, i: nat): (k: nat)
    requires i <= |used|
    ensures i <= k <= |used|
    ensures k < |used| ==> !used[k]
    ensures forall j | i <= j < k :: used[j]
    decreases |used| - i
  {
    if i == |used| || !used[i] then i else FirstUnused(used, i + 1)
  }

  /** can_add_filter and can_remove_filter. */
  function AddFilter(s: State, filter: Filter): (s': State)
    requires Shape(s)
    ensures Shape(s')
  {
    var k := FirstUnused(s.used, 0);
    if k == FILTERS then s else s.(filters := s.filters[k := filter], used := s.used[k := true])
  }

  function RemoveFilter(s: State, k: nat): (s': State)
    requires Shape(s)
    ensures Shape(s')
  {
    if k >= FILTERS then s else s.(used := s.used[k := false])
  }

  datatype Event = Arrives(m: Mailbox) | Access | Adds(filter: Filter) | Removes(k: nat)

  function Step(s: State, e: Event): (s': State)
    requires Shape(s)
    ensures Shape(s')
  {
    match e
    case Arrives(m) => Interrupt(s, Decode(m))
    case Access => Consume(s)
    case Adds(filter) => AddFilter(s, filter)
    case Removes(k) => RemoveFilter(s, k)
  }

  function Run(s: State, es: seq<Event>): (s': State)
    requires Shape(s)
    ensures Shape(s')
  {
    if es == [] then s else Step(Run(s, es[..|es| - 1]), es[|es| - 1])
  }

  /** can_init. */
  predicate Initial(s: State) {
    Shape(s) && s.head == 0 && s.tail == 0 && s.phase == Idle && s.queued == [] && s.delivered == []
    && forall i | 0 <= i < FILTERS :: !s.used[i]
  }

  // ---------------------------------------------------------------- the invariant

  predicate Indices(s: State)
    requires Shape(s)
  {
    && s.head == Slot(|s.queued|) && s.tail == Slot(|s.delivered|)
    && |s.delivered| <= |s.queued| <= |s.delivered| + 63
  }

  predicate Waiting(s: State)
    requires Shape(s)
  {
    forall j | |s.delivered| <= j < |s.queued| :: s.buf[Slot(j)] == s.queued[j]
  }

  predicate InHand(s: State) {
    s.phase.Idle? || (|s.delivered| < |s.queued|
      && var f := s.queued[|s.delivered|];
      match s.phase
      case Idle => true
      case Found => true
      case Half(id, extended, rtr) => id == f.id && extended == f.extended && rtr == f.rtr
      case Copied(g) => g == f)
  }

  predicate Inv(s: State) {
    Shape(s) && Indices(s) && Waiting(s) && InHand(s) && s.delivered <= s.queued
  }

  lemma {:induction false} SlotStep(j: nat)
    ensures Slot(Slot(j) + 1) == Slot(j + 1)
  {}

  lemma {:induction false} SlotInjective(j: nat, k: nat)
    requires Slot(j) == Slot(k) && j <= k < j + 64
    ensures j == k
  {}

  /** The ring refuses exactly when 63 frames are waiting. */
  lemma {:induction false} FullExactly(s: State)
    requires Shape(s) && Indices(s)
    ensures Slot(s.head + 1) == s.tail <==> |s.queued| == |s.delivered| + 63
    ensures s.head == s.tail <==> |s.queued| == |s.delivered|
  {
    hide Slot;
    var d, q := |s.delivered|, |s.queued|;
    SlotStep(q);
    SlotWraps(d);
    if Slot(q + 1) == Slot(d) {
      SlotInjective(q + 1, d + 64);
    }
    if Slot(q) == Slot(d) {
      SlotInjective(d, q);
    }
  }

  lemma {:induction false} SlotWraps(j: nat)
    ensures Slot(j + 64) == Slot(j)
  {}

  lemma {:induction false} InterruptKeepsInv(s: State, f: Frame)
    requires Inv(s)
    ensures Inv(Interrupt(s, f))
  {
    hide Slot, Accepted;
    FullExactly(s);
    var s' := Interrupt(s, f);
    if s' != s {
      SlotStep(|s.queued|);
      forall j | |s.delivered| <= j < |s.queued| + 1
        ensures s'.buf[Slot(j)] == s'.queued[j]
      {
        if Slot(j) == Slot(|s.queued|) {
          SlotInjective(j, |s.queued|);
        }
      }
    }
  }

  lemma {:induction false} ConsumeKeepsInv(s: State)
    requires Inv(s)
    ensures Inv(Consume(s))
  {
    hide Slot;
    FullExactly(s);
    SlotStep(|s.delivered|);
  }

  lemma {:induction false} StepKeepsInv(s: State, e: Event)
    requires Inv(s)
    ensures Shape(s) && Inv(Step(s, e))
  {
    hide Interrupt, Consume, FirstUnused, Decode, Slot;
    match e
    case Arrives(m) => InterruptKeepsInv(s, Decode(m));
    case Access => ConsumeKeepsInv(s);
    case Adds(_) =>
    case Removes(_) =>
  }

  lemma {:induction false} RunKeepsInv(s: State, es: seq<Event>)
    requires Initial(s)
    ensures Shape(s) && Inv(Run(s, es))
    decreases |es|
  {
    if es != [] {
      hide Inv, Step;
      RunKeepsInv(s, es[..|es| - 1]);
      StepKeepsInv(Run(s, es[..|es| - 1]), es[|es| - 1]);
    }
  }

  // ---------------------------------------------------------------- what the filter table does

  /** Adding a filter accepts what was accepted before and what the filter matches, when one of the 14
      places is unused; otherwise nothing changes. The ring is not touched. */
  lemma {:induction false} AddAccepts(s: State, filter: Filter, f: Frame)
    requires Shape(s)
    ensures var t := AddFilter(s, filter);
      && ((exists i | 0 <= i < 14 :: !s.used[i]) ==>
          (Accepted(t.filters, t.used, f) <==> Accepted(s.filters, s.used, f) || Matches(f, filter)))
      && ((forall i | 0 <= i < 14 :: s.used[i]) ==> t == s)
      && t == s.(filters := t.filters, used := t.used)
  {
    hide Matches;
    var t, k := AddFilter(s, filter), FirstUnused(s.used, 0);
    if k < 14 {
      assert t.used[k] && t.filters[k] == filter;
      forall i | 0 <= i < 14 && i != k
        ensures t.used[i] == s.used[i] && t.filters[i] == s.filters[i]
      {}
    }
  }

  /** Removing place k withdraws exactly that place; a place from 14 on does not exist. */
  lemma {:induction false} RemoveWithdraws(s: State, k: nat, f: Frame)
    requires Shape(s)
    ensures var t := RemoveFilter(s, k);
      && (Accepted(t.filters, t.used, f) <==>
          exists i | 0 <= i < 14 :: i != k && s.used[i] && Matches(f, s.filters[i]))
      && t == s.(used := t.used) && (k >= 14 ==> t == s)
  {
    hide Matches;
  }

  /** The place the filter of event i was given. */
  function PlaceOf(s: State, es: seq<Event>, i: nat): nat
    requires Shape(s) && i < |es|
  {
    FirstUnused(Run(s, es[..i]).used, 0)
  }

  /** Event i added a filter, which found a place and has not been removed from it since. */
  ghost predicate InForce(s: State, es: seq<Event>, i: nat)
    requires Shape(s) && i < |es|
  {
    es[i].Adds? && PlaceOf(s, es, i) < 14 && forall j | i < j < |es| :: es[j] != Removes(PlaceOf(s, es, i))
  }

  /** A filter in force stands in its place. */
  lemma {:induction false} InForceStands(s: State, es: seq<Event>, i: nat)
    requires Shape(s) && i < |es| && InForce(s, es, i)
    ensures var t, k := Run(s, es), PlaceOf(s, es, i);
      t.used[k] && t.filters[k] == es[i].filter
    decreases |es|
  {
    hide Interrupt, Consume, Decode;
    var n := |es| - 1;
    if i < n {
      assert es[..n][..i] == es[..i];
      InForceStands(s, es[..n], i);
      OthersStand(Run(s, es[..n]), es[n], PlaceOf(s, es, i));
    }
  }

  lemma {:induction false} OthersStand(s: State, e: Event, k: nat)
    requires Shape(s) && k < 14 && s.used[k] && e != Removes(k)
    ensures Step(s, e).used[k] && Step(s, e).filters[k] == s.filters[k]
  {
    hide Decode;
  }

  /** Every used place holds a filter in force. */
  lemma {:induction false} UsedIsInForce(s: State, es: seq<Event>, k: nat) returns (i: nat)
    requires Initial(s) && k < 14 && Run(s, es).used[k]
    ensures i < |es| && InForce(s, es, i) && PlaceOf(s, es, i) == k
    decreases |es|
  {
    hide Interrupt, Consume, Decode;
    assert es != [];
    var n := |es| - 1;
    var before := Run(s, es[..n]);
    if before.used[k] {
      i := UsedIsInForce(s, es[..n], k);
      assert es[..n][..i] == es[..i];
      StillUsed(before, es[n], k);
    } else {
      i := n;
      NewlyUsed(before, es[n], k);
    }
  }

  lemma {:induction false} StillUsed(s: State, e: Event, k: nat)
    requires Shape(s) && k < 14 && s.used[k] && Step(s, e).used[k]
    ensures e != Removes(k)
  {}

  lemma {:induction false} NewlyUsed(s: State, e: Event, k: nat)
    requires Shape(s) && k < 14 && !s.used[k] && Step(s, e).used[k]
    ensures e.Adds? && FirstUnused(s.used, 0) == k
  {
    hide Decode;
  }

  /** Some filter that was added and not since removed matches the frame. */
  ghost predicate Wants(s: State, es: seq<Event>, f: Frame)
    requires Shape(s)
  {
    exists i :: 0 <= i < |es| && es[i].Adds? && InForce(s, es, i) && Matches(f, es[i].filter)
  }

  /** After any run from can_init, a frame is accepted if and only if some filter that was added and not
      since removed matches it. */
  lemma {:induction false} AcceptedExactly(s: State, es: seq<Event>, f: Frame)
    requires Initial(s)
    ensures Accepted(Run(s, es).filters, Run(s, es).used, f) <==> Wants(s, es, f)
  {
    hide Matches, InForce, Step;
    var t := Run(s, es);
    if Wants(s, es, f) {
      var i :| 0 <= i < |es| && es[i].Adds? && InForce(s, es, i) && Matches(f, es[i].filter);
      InForcePlace(s, es, i);
      InForceStands(s, es, i);
      assert t.used[PlaceOf(s, es, i)];
    }
    if Accepted(t.filters, t.used, f) {
      var k :| 0 <= k < |t.filters| && t.used[k] && Matches(f, t.filters[k]);
      var i := UsedIsInForce(s, es, k);
      InForcePlace(s, es, i);
      InForceStands(s, es, i);
    }
  }

  lemma {:induction false} InForcePlace(s: State, es: seq<Event>, i: nat)
    requires Shape(s) && i < |es| && InForce(s, es, i)
    ensures es[i].Adds? && PlaceOf(s, es, i) < 14
  {}

  // ---------------------------------------------------------------- what the ring is for

  /** The frames a run should queue: each arrival that a filter matches which was added and not since
      removed, unless 63 frames are waiting. */
  ghost function Wanted(s: State, es: seq<Event>): seq<Frame>
    requires Shape(s)
  {
    if es == [] then []
    else
      var before, e := Run(s, es[..|es| - 1]), es[|es| - 1];
      Wanted(s, es[..|es| - 1])
      + (if e.Arrives? && Wants(s, es[..|es| - 1], Decode(e.m)) && |before.queued| - |before.delivered| != 63
         then [Decode(e.m)] else [])
  }

  lemma {:induction false} StepQueues(s: State, e: Event)
    requires Inv(s)
    ensures Shape(s)
    ensures Step(s, e).queued == s.queued
      + (if e.Arrives? && Accepted(s.filters, s.used, Decode(e.m)) && |s.queued| - |s.delivered| != 63
         then [Decode(e.m)] else [])
  {
    hide Slot, Accepted, Decode;
    FullExactly(s);
  }

  /** Over every interleaving of interrupts, accesses and filter changes: the frames returned and
      then those in the ring are the accepted arrivals in order, minus those that found 63 waiting. */
  lemma {:induction false} RunDelivers(s: State, es: seq<Event>)
    requires Initial(s)
    ensures Shape(s)
    ensures var t := Run(s, es);
      && t.queued == Wanted(s, es)
      && t.delivered <= Wanted(s, es)
      && |Wanted(s, es)| - |t.delivered| <= 63
      && forall j | |t.delivered| <= j < |t.queued| :: t.buf[Slot(j)] == Wanted(s, es)[j]
    decreases |es|
  {
    hide Slot, Step, Accepted, Wants, Decode;
    RunKeepsInv(s, es);
    if es != [] {
      RunDelivers(s, es[..|es| - 1]);
      RunKeepsInv(s, es[..|es| - 1]);
      StepQueues(Run(s, es[..|es| - 1]), es[|es| - 1]);
      if es[|es| - 1].Arrives? {
        AcceptedExactly(s, es[..|es| - 1], Decode(es[|es| - 1].m));
      }
    }
  }

  /** The interrupt never touches the frame being copied out. */
  lemma {:induction false} InterruptSparesTail(s: State, f: Frame)
    requires Inv(s) && !s.phase.Idle?
    ensures Shape(s) && Interrupt(s, f).buf[s.tail] == s.buf[s.tail] && Interrupt(s, f).tail == s.tail
  {
    hide Slot, Accepted;
    FullExactly(s);
    InterruptKeepsInv(s, f);
  }
}
