/** The CAN driver (drivers/can.c): can_send_frame, can_receive_frame, the filter table and the two
    interrupt routines. */
module Can {
  import opened Bits
  import opened CanFrames
  import opened CanRing
  import opened Common

  const TX_SIZE: nat := 32 // CAN_TX_BUFFER_SIZE

  /** can_process_rx_interrupt tests a frame against the filter table. */
  method FrameAccepted(filters: array<Filter>, used: array<bool>, f: Frame) returns (accepted: bool)
    requires filters.Length == used.Length == FILTERS
    ensures accepted == Accepted(filters[..], used[..], f)
  {
    hide Matches;
    accepted := false;
    var i := 0;
    while i < FILTERS && !accepted
      invariant 0 <= i <= FILTERS
      invariant accepted ==> Accepted(filters[..], used[..], f)
      invariant !accepted ==> forall j | 0 <= j < i :: !(used[j] && Matches(f, filters[j]))
    {
      if used[i] && Matches(f, filters[i]) {
        accepted := true;
        assert used[..][i] && Matches(f, filters[..][i]);
      }
      i := i + 1;
    }
  }

  class Receiver {
    const rxBuffer: array<Frame>
    var rxHead: nat
    var rxTail: nat
    const filters: array<Filter>
    const filterUsed: array<bool>
    var hasCallback: bool          // rx_callback is not NULL
    ghost var phase: Phase
    ghost var queued: seq<Frame>
    ghost var delivered: seq<Frame>

    /** can_init: everything zeroed. */
    constructor ()
      ensures Separate() && Initial(View()) && Inv(View())
    {
      rxBuffer := new Frame[SIZE](_ => Frame(0, false, false, 0, [0, 0, 0, 0, 0, 0, 0, 0]));
      filters := new Filter[FILTERS](_ => Filter(0, 0, false));
      filterUsed := new bool[FILTERS](_ => false);
      rxHead, rxTail, hasCallback := 0, 0, false;
      phase, queued, delivered := Idle, [], [];
    }

    /** The three tables are different objects. */
    ghost predicate Separate() {
      var a: object, b: object, c: object := rxBuffer, filters, filterUsed;
      a != b && b != c && a != c
    }

    ghost function View(): State
      reads this, rxBuffer, filters, filterUsed
    {
      State(rxBuffer[..], rxHead, rxTail, phase, filters[..], filterUsed[..], queued, delivered)
    }

    /** One frame of the receive interrupt; stored tells whether it was put into the ring. */
    method TakeFrame(m: Mailbox) returns (f: Frame, stored: bool)
      requires Separate() && Inv(View())
      modifies rxBuffer, this`rxHead, this`queued
      ensures Inv(View()) && View() == Interrupt(old(View()), Decode(m))
      ensures f == Decode(m) && queued == old(queued) + (if stored then [f] else [])
    {
      hide Inv, Decode, Accepted;
      InvShape(View());
      f, stored := Decode(m), false;
      InterruptKeepsInv(View(), f);
      var accepted := FrameAccepted(filters, filterUsed, f);
      if accepted {
        var nextHead := (rxHead + 1) % SIZE;
        if nextHead != rxTail {
          rxBuffer[rxHead] := f;
          assert rxBuffer[..] == old(rxBuffer[..])[rxHead := f];
          rxHead := nextHead;
          queued := queued + [f];
          stored := true;
        }
      }
    }

    /** can_process_rx_interrupt: all pending mailboxes. The registered callback, if any, gets
        exactly the frames that were put into the ring, in order. */
    method RxInterrupt(pending: seq<Mailbox>) returns (called: seq<Frame>)
      requires Separate() && Inv(View())
      modifies rxBuffer, this`rxHead, this`queued
      ensures Inv(View()) && View() == Interrupts(old(View()), pending)
      ensures old(queued) <= queued
      ensures called == if hasCallback then queued[|old(queued)|..] else []
    {
      hide Inv, Interrupt, Decode;
      ghost var s := View();
      InvShape(s);
      called := [];
      var i := 0;
      assert pending[..0] == [];
      while i < |pending|
        invariant 0 <= i <= |pending| && Inv(View()) && View() == Interrupts(s, pending[..i])
        invariant old(queued) <= queued
        invariant called == if hasCallback then queued[|old(queued)|..] else []
      {
        var f, stored := TakeFrame(pending[i]);
        if stored && hasCallback {
          called := called + [f];
        }
        assert pending[..i + 1][..i] == pending[..i];
        i := i + 1;
      }
      assert pending[..i] == pending;
    }

    /** can_receive_frame, interrupted between its accesses. */
    method ReceiveFrame(bursts: seq<seq<Mailbox>>) returns (ok: bool, frame: Frame)
      requires Separate() && Inv(View()) && phase == Idle
      modifies this`rxHead, this`rxTail, this`phase, this`queued, this`delivered, rxBuffer
      ensures Inv(View()) && phase == Idle && old(queued) <= queued
      ensures ok <==> |old(delivered)| < |old(queued)|
      ensures ok ==> frame == old(queued)[|old(delivered)|]
      ensures delivered == old(delivered) + (if ok then [frame] else [])
    {
      hide Inv, Interrupts, Slot;
      InvShape(View());
      frame := Frame(0, false, false, 0, [0, 0, 0, 0, 0, 0, 0, 0]);
      EmptyExactly(View());
      if rxHead == rxTail {
        return false, frame;
      }
      SetPhase(Found);
      var called := RxInterrupt(Burst(bursts, 0));
      var id, extended, rtr := CopyFirst();
      called := RxInterrupt(Burst(bursts, 1));
      frame := CopyRest(id, extended, rtr);
      called := RxInterrupt(Burst(bursts, 2));
      CopiedIsHead(View());
      MoveTail();
      ok := true;
    }

    ghost method SetPhase(p: Phase)
      requires Inv(View()) && phase == Idle && rxHead != rxTail && p == Found
      modifies this`phase
      ensures Inv(View()) && phase == p
    {
      hide Inv, Slot;
      InvShape(View());
      ConsumeKeepsInv(View());
      phase := p;
    }

    method CopyFirst() returns (id: u32, extended: bool, rtr: bool)
      requires Inv(View()) && phase == Found
      modifies this`phase
      ensures Inv(View()) && phase == Half(id, extended, rtr)
    {
      hide Inv, Slot;
      InvShape(View());
      ConsumeKeepsInv(View());
      var f := rxBuffer[rxTail];
      id, extended, rtr := f.id, f.extended, f.rtr;
      phase := Half(id, extended, rtr);
    }

    method CopyRest(id: u32, extended: bool, rtr: bool) returns (f: Frame)
      requires Inv(View()) && phase == Half(id, extended, rtr)
      modifies this`phase
      ensures Inv(View()) && phase == Copied(f)
    {
      hide Inv, Slot;
      InvShape(View());
      ConsumeKeepsInv(View());
      f := Frame(id, extended, rtr, rxBuffer[rxTail].dlc, rxBuffer[rxTail].data);
      phase := Copied(f);
    }

    method MoveTail()
      requires Inv(View()) && phase.Copied?
      modifies this`phase, this`rxTail, this`delivered
      ensures Inv(View()) && phase == Idle && delivered == old(delivered) + [old(phase).f]
    {
      hide Inv;
      InvShape(View());
      ConsumeKeepsInv(View());
      delivered := delivered + [phase.f];
      rxTail := (rxTail + 1) % SIZE;
      phase := Idle;
    }

    /** can_add_filter. */
    method Add(filter: Filter) returns (ok: bool)
      requires Separate() && Inv(View())
      modifies filters, filterUsed
      ensures Inv(View()) && View() == AddFilter(old(View()), filter)
      ensures ok <==> exists i | 0 <= i < FILTERS :: !old(filterUsed[i])
    {
      hide Inv, Slot;
      InvShape(View());
      StepKeepsInv(View(), Adds(filter));
      var i := 0;
      ghost var u := filterUsed[..];
      while i < FILTERS && filterUsed[i]
        invariant 0 <= i <= FILTERS
        invariant FirstUnused(u, 0) == FirstUnused(u, i)
        modifies {}
      {
        i := i + 1;
      }
      if i == FILTERS {
        return false;
      }
      filters[i] := filter;
      filterUsed[i] := true;
      assert filters[..] == old(filters[..])[i := filter];
      assert filterUsed[..] == u[i := true];
      return true;
    }

    /** can_remove_filter. */
    method Remove(k: byte)
      requires Separate() && Inv(View())
      modifies filterUsed
      ensures Inv(View()) && View() == RemoveFilter(old(View()), k)
    {
      hide Inv, Slot;
      InvShape(View());
      StepKeepsInv(View(), Removes(k));
      if k >= FILTERS {
        return;
      }
      filterUsed[k] := false;
      assert filterUsed[..] == old(filterUsed[..])[k := false];
    }
  }

  /** The mailboxes of one interrupt, in order. */
  function Interrupts(s: State, pending: seq<Mailbox>): (s': State)
    requires Shape(s)
    ensures Shape(s')
  {
    if pending == [] then s
    else Interrupt(Interrupts(s, pending[..|pending| - 1]), Decode(pending[|pending| - 1]))
  }

  function Burst(bursts: seq<seq<Mailbox>>, k: nat): seq<Mailbox> {
    if k < |bursts| then bursts[k] else []
  }

  lemma {:induction false} InvShape(s: State)
    requires Inv(s)
    ensures Shape(s)
  {}

  lemma {:induction false} EmptyExactly(s: State)
    requires Inv(s)
    ensures |s.delivered| <= |s.queued| && (s.head == s.tail <==> |s.queued| == |s.delivered|)
  {
    FullExactly(s);
  }

  lemma {:induction false} CopiedIsHead(s: State)
    requires Inv(s) && s.phase.Copied?
    ensures |s.delivered| < |s.queued| && s.phase.f == s.queued[|s.delivered|]
  {}

  // ---------------------------------------------------------------- transmission

  /** The transmit ring as the frames waiting in it, oldest first. */
  class Transmitter {
    const txBuffer: array<Frame>
    var txHead: nat
    var txTail: nat
    ghost var waiting: seq<Frame>

    constructor ()
      ensures Valid() && waiting == []
    {
      txBuffer := new Frame[TX_SIZE](_ => Frame(0, false, false, 0, [0, 0, 0, 0, 0, 0, 0, 0]));
      txHead, txTail := 0, 0;
      waiting := [];
    }

    ghost predicate Valid()
      reads this, txBuffer
    {
      && txBuffer.Length == TX_SIZE && txTail < TX_SIZE && |waiting| < TX_SIZE
      && txHead == Place(txTail, |waiting|)
      && forall j | 0 <= j < |waiting| :: txBuffer[Place(txTail, j)] == waiting[j] && waiting[j].dlc <= 8
    }

    /** can_send_frame. When the mailbox is empty it calls the interrupt routine itself, which finds
        it empty `free` times. */
    method SendFrame(f: Frame, free: nat) returns (ok: bool, sent: seq<Mailbox>)
      requires Valid()
      modifies this`txHead, this`txTail, this`waiting, txBuffer
      ensures Valid() && ok == (f.dlc <= 8 && |old(waiting)| < 31)
      ensures var w := if ok then old(waiting) + [f] else old(waiting);
        && |sent| == (if ok then Min(free, |w|) else 0) && waiting == w[|sent|..]
        && forall j | 0 <= j < |sent| :: sent[j] == Encode(w[j])
    {
      hide Encode;
      sent := [];
      ok := Enqueue(f);
      if ok && free > 0 {
        sent := TxInterrupt(free);
      }
    }

    /** The tests of can_send_frame and the copy into the ring. */
    method Enqueue(f: Frame) returns (ok: bool)
      requires Valid()
      modifies this`txHead, this`waiting, txBuffer
      ensures Valid() && ok == (f.dlc <= 8 && |old(waiting)| < 31)
      ensures waiting == if ok then old(waiting) + [f] else old(waiting)
    {
      if f.dlc > 8 {
        return false;
      }
      var nextHead := (txHead + 1) % TX_SIZE;
      HeadMeetsTail(txTail, |waiting|);
      if nextHead == txTail {
        return false;
      }
      PlacesDiffer(txTail, |waiting|);
      txBuffer[txHead] := f;
      waiting := waiting + [f];
      txHead := nextHead;
      return true;
    }

    /** can_process_tx_interrupt, when the mailbox becomes empty `free` times. */
    method TxInterrupt(free: nat) returns (sent: seq<Mailbox>)
      requires Valid()
      modifies this`txTail, this`waiting
      ensures Valid() && |sent| == Min(free, |old(waiting)|) && waiting == old(waiting)[|sent|..]
      ensures forall j | 0 <= j < |sent| :: sent[j] == Encode(old(waiting)[j])
    {
      hide Encode;
      sent := [];
      ghost var w := waiting;
      while txHead != txTail && |sent| < free
        invariant Valid() && |sent| <= |w| && |sent| <= free && waiting == w[|sent|..]
        invariant forall j | 0 <= j < |sent| :: sent[j] == Encode(w[j])
        decreases free - |sent|
      {
        NonEmpty(txTail, |waiting|);
        assert txBuffer[Place(txTail, 0)] == waiting[0];
        sent := sent + [Encode(txBuffer[txTail])];
        PlaceAfter(txTail, |waiting| - 1);
        ghost var rest := waiting[1..];
        forall j | 0 <= j < |rest|
          ensures txBuffer[Place(Place(txTail, 1), j)] == rest[j] && rest[j].dlc <= 8
        {
          PlaceAfter(txTail, j);
          assert txBuffer[Place(txTail, j + 1)] == waiting[j + 1];
        }
        waiting := rest;
        txTail := (txTail + 1) % TX_SIZE;
      }
      EmptyPlace(txTail, |waiting|);
    }
  }

  /** The ring place j steps after another. */
  function Place(from: nat, j: nat): (p: nat)
    ensures p < TX_SIZE
  {
    (from + j) % 32
  }

  lemma {:induction false} HeadMeetsTail(tail: nat, n: nat)
    requires tail < TX_SIZE && n < TX_SIZE
    ensures (Place(tail, n) + 1) % 32 == Place(tail, n + 1)
    ensures Place(tail, n + 1) == tail <==> n == TX_SIZE - 1
  {}

  lemma {:induction false} PlacesDiffer(tail: nat, n: nat)
    requires tail < TX_SIZE && n < TX_SIZE
    ensures forall j | 0 <= j < n :: Place(tail, j) != Place(tail, n)
  {}

  lemma {:induction false} NonEmpty(tail: nat, n: nat)
    requires tail < TX_SIZE && n < TX_SIZE && Place(tail, n) != tail
    ensures n > 0 && Place(tail, 0) == tail
  {}

  lemma {:induction false} EmptyPlace(tail: nat, n: nat)
    requires tail < TX_SIZE && n < TX_SIZE
    ensures Place(tail, n) == tail <==> n == 0
  {}

  lemma {:induction false} PlaceAfter(tail: nat, j: nat)
    ensures Place(Place(tail, 1), j) == Place(tail, j + 1)
  {
    var q, r := (tail + 1) / 32, (tail + 1) % 32;
    DivModUnique(tail + 1 + j, 32, q + (r + j) / 32, (r + j) % 32);
  }
}
