/** The receive ring of drivers/e1000.c as a protocol between the driver, which runs
    e1000_receive_packet one memory access at a time, and the device, which fills the descriptors
    from RDH up to RDT (8254x software developer's manual, section 3.2.6). */
module RxRingSpec {
  import opened Bits
  import opened Common

  const RING: nat := 32        // E1000_NUM_RX_DESC
  const BUFFER: nat := 2048    // E1000_RX_BUFFER_SIZE

  /** A frame as the device stores it; its length goes to the descriptor's 16-bit length field. */
  type Frame = f: seq<byte> | |f| < 0x1_0000 witness []

  /** A receive descriptor with its buffer: the DD bit of its status, and the stored frame. */
  datatype Desc = Desc(done: bool, frame: Frame)

  /** Where the driver is inside e1000_receive_packet. */
  datatype Phase =
    | Idle                                // outside the function
    | Seen                                // the DD bit was found set
    | Sized(len: nat)                     // the length has been read
    | Copying(len: nat, got: seq<byte>)   // a packet of len bytes is allocated; this much is copied
    | Cleared(packet: seq<byte>)          // the descriptor's status is reset
    | Advanced(packet: seq<byte>)         // rx_cur has moved on, RDT has not been written

  /** Ring, rx_cur, the two device registers, the driver's phase; and, to state what the protocol
      is for, every frame the device has stored and every packet the driver has returned. */
  datatype State = State(descs: seq<Desc>, cur: nat, rdh: nat, rdt: nat, phase: Phase,
                         accepted: seq<Frame>, delivered: seq<seq<byte>>)

  predicate Shape(s: State) {
    |s.descs| == RING && s.cur < RING && s.rdh < RING && s.rdt < RING
  }

  /** The descriptor of the j-th frame. */
  function Slot(j: nat): (i: nat)
    ensures i < RING
  {
    j % 32
  }

  /** e1000_init_rx: no descriptor done, all but one owned by the device. */
  predicate Initial(s: State) {
    && Shape(s) && s.cur == 0 && s.rdh == 0 && s.rdt == RING - 1
    && s.phase == Idle && s.accepted == [] && s.delivered == []
    && forall i | 0 <= i < RING :: !s.descs[i].done
  }

  /** The device has a frame: it fills the descriptor at RDH, unless it owns none. */
  function DeviceStep(s: State, f: Frame): (s': State)
    requires Shape(s)
    ensures Shape(s')
  {
    if s.rdh == s.rdt then s
    else s.(descs := s.descs[s.rdh := Desc(true, f)], rdh := Slot(s.rdh + 1), accepted := s.accepted + [f])
  }

  /** The byte the copy reads; past the stored frame the buffer holds something arbitrary. */
  function ByteAt(f: Frame, k: nat, stale: byte): byte {
    if k < |f| then f[k] else stale
  }

  /** The driver's next access; `alloc` says whether blocks are free when it allocates, which
      net_alloc_packet does for 1 to 1518 bytes. */
  function DriverStep(s: State, alloc: bool, stale: byte): (s': State)
    requires Shape(s)
    ensures Shape(s')
  {
    var d := s.descs[s.cur];
    match s.phase
    case Idle => if d.done then s.(phase := Seen) else s
    case Seen => s.(phase := if |d.frame| > BUFFER then Idle else Sized(|d.frame|))
    case Sized(len) => s.(phase := if alloc && 0 < len <= MAX_PACKET then Copying(len, []) else Idle)
    case Copying(len, got) =>
      if |got| < len then s.(phase := Copying(len, got + [ByteAt(d.frame, |got|, stale)]))
      else s.(phase := Cleared(got), descs := s.descs[s.cur := d.(done := false)])
    case Cleared(p) => s.(phase := Advanced(p), cur := Slot(s.cur + 1))
    case Advanced(p) => s.(phase := Idle, rdt := Slot(s.cur + 31), delivered := s.delivered + [p])
  }

  datatype Event = Device(f: Frame) | Driver(alloc: bool, stale: byte)

  function Step(s: State, e: Event): (s': State)
    requires Shape(s)
    ensures Shape(s')
  {
    match e
    case Device(f) => DeviceStep(s, f)
    case Driver(alloc, stale) => DriverStep(s, alloc, stale)
  }

  function Run(s: State, es: seq<Event>): (s': State)
    requires Shape(s)
    ensures Shape(s')
  {
    if es == [] then s else Step(Run(s, es[..|es| - 1]), es[|es| - 1])
  }

  // ---------------------------------------------------------------- the invariant

  /** The frame the driver works on or will work on next. */
  function Head(s: State): nat {
    |s.delivered|
  }

  /** The first frame whose descriptor is still done. */
  function FirstReady(s: State): nat {
    |s.delivered| + (if s.phase.Cleared? || s.phase.Advanced? then 1 else 0)
  }

  predicate Registers(s: State)
    requires Shape(s)
  {
    && s.cur == Slot(|s.delivered| + (if s.phase.Advanced? then 1 else 0))
    && s.rdh == Slot(|s.accepted|)
    && s.rdt == Slot(|s.delivered| + 31)
    && FirstReady(s) <= |s.accepted| <= |s.delivered| + 31
  }

  predicate Ready(s: State)
    requires Shape(s)
  {
    forall j | FirstReady(s) <= j < |s.accepted| :: s.descs[Slot(j)] == Desc(true, s.accepted[j])
  }

  predicate Owned(s: State)
    requires Shape(s)
  {
    forall j | |s.accepted| <= j < FirstReady(s) + 32 :: !s.descs[Slot(j)].done
  }

  predicate InHand(s: State) {
    match s.phase
    case Idle => true
    case Seen => Head(s) < |s.accepted|
    case Sized(len) => Head(s) < |s.accepted| && len == |s.accepted[Head(s)]| <= BUFFER
    case Copying(len, got) =>
      Head(s) < |s.accepted| && len == |s.accepted[Head(s)]| && 0 < len <= MAX_PACKET && got <= s.accepted[Head(s)]
    case Cleared(p) => Head(s) < |s.accepted| && p == s.accepted[Head(s)] && 0 < |p| <= MAX_PACKET
    case Advanced(p) => Head(s) < |s.accepted| && p == s.accepted[Head(s)] && 0 < |p| <= MAX_PACKET
  }

  /** What has been returned: the accepted frames from the first on, in order. */
  predicate InOrder(s: State) {
    && |s.delivered| <= |s.accepted|
    && forall j | 0 <= j < |s.delivered| :: s.delivered[j] == s.accepted[j] && 0 < |s.delivered[j]| <= MAX_PACKET
  }

  predicate Inv(s: State) {
    Shape(s) && Registers(s) && Ready(s) && Owned(s) && InHand(s) && InOrder(s)
  }

  lemma {:induction false} SlotStep(j: nat, k: nat)
    ensures Slot(Slot(j) + k) == Slot(j + k)
  {}

  lemma {:induction false} SlotInjective(j: nat, k: nat)
    requires Slot(j) == Slot(k) && j <= k < j + 32
    ensures j == k
  {}

  lemma {:induction false} InitialInv(s: State)
    requires Initial(s)
    ensures Inv(s)
  {}

  /** The device owns a descriptor exactly when fewer than 31 frames are waiting. */
  lemma {:induction false} DeviceOwns(s: State)
    requires Shape(s) && Registers(s) && InOrder(s)
    ensures s.rdh == s.rdt <==> |s.accepted| == |s.delivered| + 31
  {
    if s.rdh == s.rdt {
      SlotInjective(|s.accepted|, |s.delivered| + 31);
    }
  }

  lemma {:induction false} DeviceKeepsInv(s: State, f: Frame)
    requires Inv(s)
    ensures Inv(DeviceStep(s, f))
  {
    hide Slot;
    DeviceOwns(s);
    if s.rdh != s.rdt {
      var s', a := DeviceStep(s, f), |s.accepted|;
      SlotStep(a, 1);
      forall j | FirstReady(s) <= j < a + 1
        ensures s'.descs[Slot(j)] == Desc(true, s'.accepted[j])
      {
        if j < a && Slot(j) == Slot(a) {
          SlotInjective(j, a);
        }
      }
      forall j | a + 1 <= j < FirstReady(s) + 32
        ensures !s'.descs[Slot(j)].done
      {
        if Slot(a) == Slot(j) {
          SlotInjective(a, j);
        }
      }
    }
  }

  lemma {:induction false} BeginKeepsInv(s: State, alloc: bool, stale: byte)
    requires Inv(s) && (s.phase.Idle? || s.phase.Seen? || s.phase.Sized?)
    ensures Inv(DriverStep(s, alloc, stale))
  {
    hide Slot;
    HeadIsReady(s);
  }

  /** When the current descriptor is done, it holds the oldest frame not yet returned. */
  lemma {:induction false} HeadIsReady(s: State)
    requires Inv(s) && !s.phase.Advanced? && !s.phase.Cleared?
    ensures s.descs[s.cur].done <==> Head(s) < |s.accepted|
    ensures s.descs[s.cur].done ==> s.descs[s.cur].frame == s.accepted[Head(s)]
  {
    hide Slot;
  }

  lemma {:induction false} CopyKeepsInv(s: State, alloc: bool, stale: byte)
    requires Inv(s) && s.phase.Copying? && |s.phase.got| < s.phase.len
    ensures Inv(DriverStep(s, alloc, stale))
  {
    hide Slot;
    HeadIsReady(s);
  }

  lemma {:induction false} ClearKeepsInv(s: State, alloc: bool, stale: byte)
    requires Inv(s) && s.phase.Copying? && |s.phase.got| == s.phase.len
    ensures Inv(DriverStep(s, alloc, stale))
  {
    hide Slot;
    var s', d := DriverStep(s, alloc, stale), Head(s);
    forall j | d + 1 <= j < |s.accepted|
      ensures s'.descs[Slot(j)] == Desc(true, s'.accepted[j])
    {
      if Slot(d) == Slot(j) {
        SlotInjective(d, j);
      }
    }
    SlotWraps(d);
  }

  lemma {:induction false} SlotWraps(j: nat)
    ensures Slot(j + 32) == Slot(j)
  {}

  lemma {:induction false} AdvanceKeepsInv(s: State, alloc: bool, stale: byte)
    requires Inv(s) && s.phase.Cleared?
    ensures Inv(DriverStep(s, alloc, stale))
  {
    hide Slot;
    SlotStep(|s.delivered|, 1);
  }

  lemma {:induction false} TailKeepsInv(s: State, alloc: bool, stale: byte)
    requires Inv(s) && s.phase.Advanced?
    ensures Inv(DriverStep(s, alloc, stale))
  {
    hide Slot;
    SlotStep(|s.delivered| + 1, 31);
  }

  lemma {:induction false} StepKeepsInv(s: State, e: Event)
    requires Inv(s)
    ensures Inv(Step(s, e))
  {
    hide Inv, Shape;
    match e
    case Device(f) => DeviceKeepsInv(s, f);
    case Driver(alloc, stale) =>
      InvShape(s);
      match s.phase
      case Idle => BeginKeepsInv(s, alloc, stale);
      case Seen => BeginKeepsInv(s, alloc, stale);
      case Sized(_) => BeginKeepsInv(s, alloc, stale);
      case Copying(len, got) =>
        if |got| < len {
          CopyKeepsInv(s, alloc, stale);
        } else {
          ClearKeepsInv(s, alloc, stale);
        }
      case Cleared(_) => AdvanceKeepsInv(s, alloc, stale);
      case Advanced(_) => TailKeepsInv(s, alloc, stale);
  }

  lemma {:induction false} InvShape(s: State)
    requires Inv(s)
    ensures Shape(s) && (s.phase.Copying? ==> |s.phase.got| <= s.phase.len)
  {}

  /** The invariant holds after every interleaving of the two parties' steps. */
  lemma {:induction false} RunKeepsInv(s: State, es: seq<Event>)
    requires Shape(s) && Initial(s)
    ensures Inv(Run(s, es))
    decreases |es|
  {
    hide Inv, Step;
    if es == [] {
      InitialInv(s);
    } else {
      RunKeepsInv(s, es[..|es| - 1]);
      StepKeepsInv(Run(s, es[..|es| - 1]), es[|es| - 1]);
    }
  }

  // ---------------------------------------------------------------- what the invariant gives

  /** How far ring position `to` lies ahead of `from`. */
  function Ahead(from: nat, to: nat): (n: nat)
    requires from < RING && to < RING
    ensures n < RING
  {
    if to >= from then to - from else to + 32 - from
  }

  lemma {:induction false} AheadOfSlot(d: nat, i: nat)
    requires i < RING
    ensures Slot(d + Ahead(Slot(d), i)) == i
  {}

  lemma {:induction false} AheadIs(d: nat, a: nat)
    requires d <= a < d + 32
    ensures Ahead(Slot(d), Slot(a)) == a - d
  {}

  /** Between two calls of e1000_receive_packet: RDT trails rx_cur by one, DD is set exactly on the
      cyclic interval from rx_cur up to RDH, and the ready and the device's descriptors are 31. */
  lemma {:induction false} BetweenReceives(s: State)
    requires Inv(s) && s.phase.Idle?
    ensures s.rdt == Slot(s.cur + 31)
    ensures forall i | 0 <= i < RING :: s.descs[i].done <==> Ahead(s.cur, i) < Ahead(s.cur, s.rdh)
    ensures Ahead(s.cur, s.rdh) + Ahead(s.rdh, s.rdt) == 31
    ensures Ahead(s.cur, s.rdh) == |s.accepted| - |s.delivered|
  {
    hide Slot, Ahead;
    var d, a := |s.delivered|, |s.accepted|;
    SlotStep(d, 31);
    AheadIs(d, a);
    AheadIs(a, d + 31);
    forall i | 0 <= i < RING
      ensures s.descs[i].done <==> Ahead(s.cur, i) < Ahead(s.cur, s.rdh)
    {
      AheadOfSlot(d, i);
      var j := d + Ahead(Slot(d), i);
      assert s.descs[Slot(j)] == s.descs[i];
    }
  }

  /** The device never writes a descriptor the driver has not finished with: whatever is done, and
      the one the driver has found done and works on, stays as it was. */
  lemma {:induction false} DeviceOverwritesNothing(s: State, f: Frame)
    requires Inv(s)
    ensures forall i | 0 <= i < RING && s.descs[i].done :: DeviceStep(s, f).descs[i] == s.descs[i]
    ensures s.phase.Seen? || s.phase.Sized? || s.phase.Copying? ==> s.descs[s.cur].done
  {
    hide Slot;
    if s.rdh != s.rdt {
      assert !s.descs[Slot(|s.accepted|)].done by {
        DeviceOwns(s);
      }
    }
    if s.phase.Seen? || s.phase.Sized? || s.phase.Copying? {
      HeadIsReady(s);
    }
  }

  /** Delivery over every interleaving, the byte-by-byte copy included: the packets returned are
      the stored frames, whole, in order, none lost and none twice; those still to come are in the
      ring. A frame the device has for a full ring is the only one refused. */
  lemma {:induction false} RunDelivers(s: State, es: seq<Event>)
    requires Shape(s) && Initial(s)
    ensures var t := Run(s, es);
      && t.delivered <= t.accepted
      && |t.accepted| - |t.delivered| <= 31
      && (forall j | FirstReady(t) <= j < |t.accepted| :: t.descs[Slot(j)] == Desc(true, t.accepted[j]))
      && (forall f :: DeviceStep(t, f).accepted == t.accepted <==> |t.accepted| == |t.delivered| + 31)
  {
    hide Slot, Run;
    RunKeepsInv(s, es);
    var t := Run(s, es);
    DeviceOwns(t);
    assert t.delivered == t.accepted[..|t.delivered|];
  }

  /** n accesses of the driver with the device silent. */
  function Finish(s: State, n: nat): (s': State)
    requires Shape(s)
    ensures Shape(s')
    decreases n
  {
    if n == 0 then s else Finish(DriverStep(s, true, 0), n - 1)
  }

  /** Exactly which head frame is taken by the tests and the allocation, however many frames arrive
      between them: with blocks free, one of 1 to 1518 bytes. */
  lemma {:induction false} TakenExactly(s: State, fs: seq<Frame>, gs: seq<Frame>)
    requires Inv(s) && s.phase.Idle?
    ensures var t := DriverStep(Arrive(DriverStep(Arrive(DriverStep(s, true, 0), fs), true, 0), gs), true, 0);
      t.phase.Copying? <==> Head(s) < |s.accepted| && 0 < |s.accepted[Head(s)]| <= 1518
  {
    hide Slot, Inv, DeviceStep;
    BeginPhases(s);
    var a := DriverStep(s, true, 0);
    StepKeepsInv(s, Driver(true, 0));
    ArriveKeeps(a, fs);
    var b := Arrive(a, fs);
    BeginPhases(b);
    var c := DriverStep(b, true, 0);
    StepKeepsInv(b, Driver(true, 0));
    ArriveKeeps(c, gs);
    BeginPhases(Arrive(c, gs));
  }

  /** Frames that arrive one after the other. */
  function Arrive(s: State, fs: seq<Frame>): (s': State)
    requires Shape(s)
    ensures Shape(s')
  {
    if fs == [] then s else DeviceStep(Arrive(s, fs[..|fs| - 1]), fs[|fs| - 1])
  }

  lemma {:induction false} ArriveKeeps(s: State, fs: seq<Frame>)
    requires Inv(s)
    ensures Shape(s) && Inv(Arrive(s, fs))
    ensures Arrive(s, fs).phase == s.phase && Arrive(s, fs).delivered == s.delivered
    ensures s.accepted <= Arrive(s, fs).accepted
    ensures s.phase.Idle? && s.descs[s.cur].done ==> Arrive(s, fs).descs[s.cur].done
    decreases |fs|
  {
    hide Slot, Inv;
    InvShape(s);
    if fs != [] {
      var before := Arrive(s, fs[..|fs| - 1]);
      ArriveKeeps(s, fs[..|fs| - 1]);
      DeviceKeepsInv(before, fs[|fs| - 1]);
      DeviceOverwritesNothing(before, fs[|fs| - 1]);
    }
  }

  /** What each access before the copy finds. */
  lemma {:induction false} BeginPhases(s: State)
    requires Inv(s) && !s.phase.Cleared? && !s.phase.Advanced?
    ensures Shape(s) && Head(s) <= |s.accepted|
    ensures s.phase.Idle? ==>
      DriverStep(s, true, 0).phase == if Head(s) < |s.accepted| then Seen else Idle
    ensures s.phase.Seen? ==>
      && Head(s) < |s.accepted|
      && DriverStep(s, true, 0).phase
         == if |s.accepted[Head(s)]| > 2048 then Idle else Sized(|s.accepted[Head(s)]|)
    ensures s.phase.Sized? ==>
      && Head(s) < |s.accepted| && s.phase.len == |s.accepted[Head(s)]|
      && (DriverStep(s, true, 0).phase.Copying? <==> 0 < |s.accepted[Head(s)]| <= 1518)
  {
    hide Slot;
    HeadIsReady(s);
  }

  /** A head frame that no packet can hold is never passed: nothing is returned ever again. */
  ghost predicate Stuck(s: State) {
    && Inv(s) && Head(s) < |s.accepted|
    && (|s.accepted[Head(s)]| == 0 || |s.accepted[Head(s)]| > 1518)
  }

  lemma {:induction false} StuckStep(s: State, e: Event)
    requires Stuck(s)
    ensures Stuck(Step(s, e)) && Step(s, e).delivered == s.delivered && s.accepted <= Step(s, e).accepted
  {
    hide Slot;
    StepKeepsInv(s, e);
    HeadIsReady(s);
  }

  lemma {:induction false} StuckForever(s: State, es: seq<Event>)
    requires Shape(s) && Stuck(s)
    ensures Stuck(Run(s, es)) && Run(s, es).delivered == s.delivered
    ensures |Run(s, es).accepted| <= |s.delivered| + 31
    decreases |es|
  {
    if es != [] {
      StuckForever(s, es[..|es| - 1]);
      StuckStep(Run(s, es[..|es| - 1]), es[|es| - 1]);
    }
  }

  /** The other head frames do come out: from the allocation on, the remaining accesses of the
      driver return the head frame. */
  lemma {:induction false} CopyFinishes(s: State)
    requires Inv(s) && s.phase.Copying?
    ensures var n := s.phase.len - |s.phase.got| + 3;
      Finish(s, n).phase.Idle? && Finish(s, n).delivered == s.delivered + [s.accepted[Head(s)]]
    decreases s.phase.len - |s.phase.got|
  {
    hide Slot, Inv;
    InvShape(s);
    var t := DriverStep(s, true, 0);
    StepKeepsInv(s, Driver(true, 0));
    if |s.phase.got| < s.phase.len {
      CopyFinishes(t);
    } else {
      var u := DriverStep(t, true, 0);
      StepKeepsInv(t, Driver(true, 0));
      PacketIsHead(u);
      var w := DriverStep(u, true, 0);
      assert Finish(w, 0) == w && Finish(u, 1) == Finish(w, 0);
      assert Finish(t, 2) == Finish(u, 1) && Finish(s, 3) == Finish(t, 2);
    }
  }

  lemma {:induction false} PacketIsHead(s: State)
    requires Inv(s) && s.phase.Advanced?
    ensures Head(s) < |s.accepted| && s.phase.packet == s.accepted[Head(s)]
  {}
}
