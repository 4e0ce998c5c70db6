/** The byte streams of an established TCP connection (net/tcp.c): what sending, receiving and
    arriving segments do to the two buffers, and what whole runs deliver. */
module TcpStreams {
  import opened Bits
  import opened Common

  /** The part of a connection that carries data: bytes accepted by tcp_send but not acknowledged,
      and bytes received but not read. */
  datatype Tcb = Tcb(window: u16, una: u32, pending: seq<byte>, nxt: u32, inbox: seq<byte>, rcvWnd: u32)

  predicate TcbOk(c: Tcb) {
    |c.pending| <= c.window && |c.inbox| <= c.window && c.rcvWnd + |c.inbox| == c.window
  }

  /** tcp_send takes all of the data or nothing. */
  predicate Fits(c: Tcb, data: seq<byte>) {
    data != [] && |c.pending| + |data| <= c.window
  }

  function Send(c: Tcb, data: seq<byte>): Tcb {
    if Fits(c, data) then c.(pending := c.pending + data) else c
  }

  /** tcp_receive moves up to max bytes out of the receive buffer. */
  function Take(c: Tcb, max: nat): seq<byte> {
    c.inbox[..Min(max, |c.inbox|)]
  }

  function Receive(c: Tcb, max: nat): (c': Tcb)
    requires TcbOk(c)
    ensures TcbOk(c')
  {
    var n := Min(max, |c.inbox|);
    c.(inbox := c.inbox[n..], rcvWnd := c.rcvWnd + n)
  }

  /** An acknowledgement inside (una, una + pending], modulo 2^32, drops what it covers. */
  function OnAck(c: Tcb, ack: u32): (c': Tcb)
    ensures TcbOk(c) ==> TcbOk(c')
  {
    var acked := Sub32(ack, c.una);
    if 0 < acked <= |c.pending| then c.(una := ack, pending := c.pending[acked..]) else c
  }

  /** Data is accepted only at rcv_nxt and only if it fits the window. */
  function OnData(c: Tcb, s: u32, data: seq<byte>): (c': Tcb)
    requires TcbOk(c)
    ensures TcbOk(c')
  {
    if data != [] && s == c.nxt && |c.inbox| + |data| <= c.window
    then c.(inbox := c.inbox + data, nxt := Add32(c.nxt, |data|), rcvWnd := c.rcvWnd - |data|)
    else c
  }

  /** The parts of a segment: acknowledgement flag and number, sequence number, data. */
  datatype Arriving = Arriving(isAck: bool, ack: u32, s: u32, data: seq<byte>)

  /** First the acknowledgement, then the data. */
  function OnSegment(c: Tcb, a: Arriving): (c': Tcb)
    requires TcbOk(c)
    ensures TcbOk(c')
  {
    OnData(if a.isAck then OnAck(c, a.ack) else c, a.s, a.data)
  }

  /** The sequence number of byte k of a stream numbered from `start`. */
  function SeqNum(start: u32, k: nat): u32 {
    (start + k) % 0x1_0000_0000
  }

  /** Below 2^32 bytes a sequence number determines the position in the stream. */
  lemma {:induction false} SeqNumInjective(start: u32, j: nat, k: nat)
    requires j < U32 && k < U32 && SeqNum(start, j) == SeqNum(start, k)
    ensures j == k
  {}

  lemma {:induction false} SeqNumAdd(start: u32, k: nat, n: nat)
    requires n < U32
    ensures Add32(SeqNum(start, k), n) == SeqNum(start, k + n)
  {}

  /** The distance the source computes from una to an acknowledgement. */
  lemma {:induction false} SeqNumDistance(start: u32, d: nat, j: nat)
    requires d < U32 && j < U32
    ensures Sub32(SeqNum(start, j), SeqNum(start, d)) == if j >= d then j - d else j - d + U32
  {}

  /** A send is taken exactly when it has data and the data fits what the window leaves; then the data
      waits behind what waited before. A window takes its whole size. */
  lemma {:induction false} SendExactly(c: Tcb, data: seq<byte>)
    requires TcbOk(c)
    ensures Send(c, data) != c <==> 0 < |data| && |data| <= c.window - |c.pending|
    ensures Send(c, data) != c ==> Send(c, data) == c.(pending := c.pending + data)
    ensures c.pending == [] && |data| == c.window > 0 ==> Send(c, data).pending == data
  {
    if Fits(c, data) {
      assert |(c.pending + data)| > |c.pending|;
    }
  }

  /** A read returns the oldest bytes that wait, as many as asked for and there are; so it returns
      something whenever something waits and something is asked for. The rest stays, and the window
      grows by what was read. */
  lemma {:induction false} ReadExactly(c: Tcb, max: nat)
    requires TcbOk(c)
    ensures Take(c, max) + Receive(c, max).inbox == c.inbox
    ensures |Take(c, max)| == if max <= |c.inbox| then max else |c.inbox|
    ensures max > 0 && c.inbox != [] ==> Take(c, max) != [] && Take(c, max)[0] == c.inbox[0]
    ensures Receive(c, max) == c.(inbox := c.inbox[|Take(c, max)|..], rcvWnd := c.rcvWnd + |Take(c, max)|)
  {}

  // ---------------------------------------------------------------- the receiving side

  datatype RcvEvent = Data(at: nat, n: nat) | Read(max: nat)

  /** A reader's connection together with the bytes read so far. */
  datatype Reader = Reader(c: Tcb, read: seq<byte>)

  /** A slice of the stream arrives under its sequence number; or the application reads. */
  function RcvStep(r: Reader, s: seq<byte>, start: u32, e: RcvEvent): (r': Reader)
    requires TcbOk(r.c)
    ensures TcbOk(r'.c)
  {
    match e
    case Data(at, n) =>
      if at + n <= |s| then r.(c := OnData(r.c, SeqNum(start, at), s[at..at + n])) else r
    case Read(max) => Reader(Receive(r.c, max), r.read + Take(r.c, max))
  }

  function RcvRun(r: Reader, s: seq<byte>, start: u32, es: seq<RcvEvent>): (r': Reader)
    requires TcbOk(r.c)
    ensures TcbOk(r'.c)
  {
    if es == [] then r
    else RcvStep(RcvRun(r, s, start, es[..|es| - 1]), s, start, es[|es| - 1])
  }

  /** How much of the stream has been accepted. */
  function Got(r: Reader): nat {
    |r.read| + |r.c.inbox|
  }

  /** Bytes read, then bytes buffered: a prefix of the stream, and rcv_nxt is where it ends. */
  ghost predicate InOrder(r: Reader, s: seq<byte>, start: u32) {
    Got(r) <= |s| && r.read + r.c.inbox == s[..Got(r)] && r.c.nxt == SeqNum(start, Got(r))
  }

  lemma {:induction false} RcvStepInOrder(r: Reader, s: seq<byte>, start: u32, e: RcvEvent)
    requires TcbOk(r.c) && |s| < U32 && InOrder(r, s, start)
    ensures InOrder(RcvStep(r, s, start, e), s, start)
    ensures Got(RcvStep(r, s, start, e)) >= Got(r)
  {
    hide SeqNum, Add32;
    var r' := RcvStep(r, s, start, e);
    match e
    case Data(at, n) =>
      if r' != r {
        SeqNumInjective(start, at, Got(r));
        SeqNumAdd(start, at, n);
        assert s[..at] + s[at..at + n] == s[..at + n];
        assert r'.read + r'.c.inbox == (r.read + r.c.inbox) + s[at..at + n];
      }
    case Read(max) =>
      assert r'.read + r'.c.inbox == r.read + r.c.inbox;
  }

  /** A slice is taken exactly when it starts where the reader stands and fits the window. */
  lemma {:induction false} DataTakenExactly(r: Reader, s: seq<byte>, start: u32, at: nat, n: nat)
    requires TcbOk(r.c) && |s| < U32 && InOrder(r, s, start) && at + n <= |s| && n > 0
    ensures Got(RcvStep(r, s, start, Data(at, n))) ==
            (if at == Got(r) && |r.c.inbox| + n <= r.c.window then Got(r) + n else Got(r))
  {
    hide SeqNum;
    if SeqNum(start, at) == r.c.nxt {
      SeqNumInjective(start, at, Got(r));
    }
  }

  /** Whatever slices of a stream shorter than 2^32 arrive, in whatever order, lost or repeated and
      with wrapping sequence numbers, the reader sees exactly a growing prefix of the stream. */
  lemma {:induction false} ReceiverInOrder(c: Tcb, s: seq<byte>, start: u32, es: seq<RcvEvent>)
    requires TcbOk(c) && |s| < U32 && c.inbox == [] && c.nxt == start
    ensures InOrder(RcvRun(Reader(c, []), s, start, es), s, start)
    ensures RcvRun(Reader(c, []), s, start, es).c.rcvWnd + |RcvRun(Reader(c, []), s, start, es).c.inbox| == c.window
    ensures RcvRun(Reader(c, []), s, start, es).c.window == c.window
    ensures forall k | 0 <= k <= |es| ::
      RcvRun(Reader(c, []), s, start, es[..k]).read <= RcvRun(Reader(c, []), s, start, es).read
    decreases |es|
  {
    hide InOrder, RcvStep, TcbOk;
    if es == [] {
      FreshReader(c, s, start);
    } else {
      var n := |es| - 1;
      ReceiverInOrder(c, s, start, es[..n]);
      var before := RcvRun(Reader(c, []), s, start, es[..n]);
      RcvStepInOrder(before, s, start, es[n]);
      RcvStepReads(before, s, start, es[n]);
      forall k | 0 <= k <= |es|
        ensures RcvRun(Reader(c, []), s, start, es[..k]).read <= RcvRun(Reader(c, []), s, start, es).read
      {
        if k <= n {
          assert es[..n][..k] == es[..k];
        } else {
          assert es[..k] == es;
        }
      }
    }
  }

  lemma {:induction false} FreshReader(c: Tcb, s: seq<byte>, start: u32)
    requires TcbOk(c) && c.inbox == [] && c.nxt == start
    ensures InOrder(Reader(c, []), s, start) && c.rcvWnd == c.window
  {}

  lemma {:induction false} RcvStepReads(r: Reader, s: seq<byte>, start: u32, e: RcvEvent)
    requires TcbOk(r.c)
    ensures var r' := RcvStep(r, s, start, e);
      r.read <= r'.read && r'.c.window == r.c.window && r'.c.rcvWnd + |r'.c.inbox| == r.c.window
  {}

  // ---------------------------------------------------------------- the sending side

  datatype SndEvent = Write(data: seq<byte>) | Ack(ack: u32)

  /** A writer's connection together with every byte tcp_send has accepted. */
  datatype Writer = Writer(c: Tcb, accepted: seq<byte>)

  function SndStep(w: Writer, e: SndEvent): (w': Writer)
    requires TcbOk(w.c)
    ensures TcbOk(w'.c)
  {
    match e
    case Write(data) => Writer(Send(w.c, data), if Fits(w.c, data) then w.accepted + data else w.accepted)
    case Ack(ack) => w.(c := OnAck(w.c, ack))
  }

  function SndRun(w: Writer, es: seq<SndEvent>): (w': Writer)
    requires TcbOk(w.c)
    ensures TcbOk(w'.c)
  {
    if es == [] then w else SndStep(SndRun(w, es[..|es| - 1]), es[|es| - 1])
  }

  /** How much of the accepted stream has been dropped as acknowledged. */
  function Dropped(w: Writer): int {
    |w.accepted| - |w.c.pending|
  }

  /** The send buffer is the unacknowledged suffix of the accepted bytes, and snd_una its number. */
  ghost predicate Suffix(w: Writer, iss: u32) {
    Dropped(w) >= 0 && w.c.pending == w.accepted[Dropped(w)..] && w.c.una == SeqNum(iss, Dropped(w))
  }

  lemma {:induction false} SndStepSuffix(w: Writer, iss: u32, e: SndEvent)
    requires TcbOk(w.c) && Suffix(w, iss)
    ensures Suffix(SndStep(w, e), iss)
    ensures Dropped(SndStep(w, e)) >= Dropped(w)
  {
    hide SeqNum;
    match e
    case Write(data) =>
    case Ack(ack) =>
      var acked := Sub32(ack, w.c.una);
      if 0 < acked <= |w.c.pending| {
        SeqNumAdd(iss, Dropped(w), acked);
        assert ack == SeqNum(iss, Dropped(w) + acked);
      }
  }

  /** Across all calls of tcp_send and all acknowledgements, arbitrary ones included, the send
      buffer is exactly the unacknowledged suffix of what was accepted. */
  lemma {:induction false} SenderKeepsSuffix(c: Tcb, es: seq<SndEvent>)
    requires TcbOk(c) && c.pending == []
    ensures Suffix(SndRun(Writer(c, []), es), c.una)
    decreases |es|
  {
    hide SndStep, Suffix, TcbOk;
    if es == [] {
      FreshWriter(c);
    } else {
      SenderKeepsSuffix(c, es[..|es| - 1]);
      SndStepSuffix(SndRun(Writer(c, []), es[..|es| - 1]), c.una, es[|es| - 1]);
    }
  }

  lemma {:induction false} FreshWriter(c: Tcb)
    requires c.pending == []
    ensures Suffix(Writer(c, []), c.una)
  {}

  /** Which acknowledgements have an effect: exactly those that lie, counted modulo 2^32 from
      snd_una, among the bytes waiting; any other changes nothing. */
  lemma {:induction false} AckExactly(w: Writer, iss: u32, ack: u32)
    requires TcbOk(w.c) && Suffix(w, iss) && |w.accepted| < U32
    ensures OnAck(w.c, ack) != w.c <==> exists j :: Dropped(w) < j <= |w.accepted| && ack == SeqNum(iss, j)
    ensures forall j | Dropped(w) < j <= |w.accepted| && ack == SeqNum(iss, j) ::
      OnAck(w.c, ack) == w.c.(una := ack, pending := w.accepted[j..])
  {
    hide SeqNum;
    var d, acked := Dropped(w), Sub32(ack, w.c.una);
    forall j | d < j <= |w.accepted| && ack == SeqNum(iss, j)
      ensures acked == j - d && OnAck(w.c, ack) == w.c.(una := ack, pending := w.accepted[j..])
    {
      SeqNumDistance(iss, d, j);
    }
    if 0 < acked <= |w.c.pending| {
      SeqNumAdd(iss, d, acked);
      assert ack == SeqNum(iss, d + acked);
    }
  }

  // ---------------------------------------------------------------- both ends

  datatype Event =
    | AppWrite(data: seq<byte>)       // tcp_send at the sender
    | Segment(at: nat, n: nat)        // some slice of the accepted bytes reaches the receiver
    | AppRead(max: nat)               // tcp_receive at the receiver
    | AckArrives(k: nat)              // the k-th rcv_nxt value the receiver ever had reaches the sender

  /** The two connections, what was accepted and read, and every past value of rcv_nxt. */
  datatype System = System(w: Writer, r: Reader, acks: seq<u32>)

  predicate SystemOk(y: System) {
    TcbOk(y.w.c) && TcbOk(y.r.c)
  }

  function Step(y: System, iss: u32, e: Event): (y': System)
    requires SystemOk(y)
    ensures SystemOk(y')
  {
    match e
    case AppWrite(data) => y.(w := SndStep(y.w, Write(data)))
    case Segment(at, n) =>
      var r' := RcvStep(y.r, y.w.accepted, iss, Data(at, n));
      y.(r := r', acks := y.acks + [r'.c.nxt])
    case AppRead(max) => y.(r := RcvStep(y.r, y.w.accepted, iss, Read(max)))
    case AckArrives(k) => if k < |y.acks| then y.(w := SndStep(y.w, Ack(y.acks[k]))) else y
  }

  function Run(y: System, iss: u32, es: seq<Event>): (y': System)
    requires SystemOk(y)
    ensures SystemOk(y')
  {
    if es == [] then y else Step(Run(y, iss, es[..|es| - 1]), iss, es[|es| - 1])
  }

  /** Both ends before any data. */
  function Opened(w: Tcb, r: Tcb): System {
    System(Writer(w, []), Reader(r, []), [r.nxt])
  }

  /** An acknowledgement numbers a byte the receiver has passed. */
  ghost predicate Passed(a: u32, iss: u32, got: nat) {
    exists j: nat :: j <= got && a == SeqNum(iss, j)
  }

  ghost predicate Linked(y: System, iss: u32) {
    && InOrder(y.r, y.w.accepted, iss)
    && Suffix(y.w, iss)
    && Dropped(y.w) <= Got(y.r)
    && forall k | 0 <= k < |y.acks| :: Passed(y.acks[k], iss, Got(y.r))
  }

  /** More accepted bytes do not disturb the receiver. */
  lemma {:induction false} InOrderGrows(r: Reader, s: seq<byte>, t: seq<byte>, start: u32)
    requires InOrder(r, s, start)
    ensures InOrder(r, s + t, start)
  {}

  lemma {:induction false} PassedGrows(acks: seq<u32>, iss: u32, a: nat, b: nat)
    requires a <= b && forall k | 0 <= k < |acks| :: Passed(acks[k], iss, a)
    ensures forall k | 0 <= k < |acks| :: Passed(acks[k], iss, b)
  {}

  /** An acknowledgement the receiver really sent drops only bytes the receiver has. */
  lemma {:induction false} AckDropsPassed(w: Writer, iss: u32, ack: u32, got: nat)
    requires TcbOk(w.c) && Suffix(w, iss) && |w.accepted| < U32 && Dropped(w) <= got <= |w.accepted|
    requires Passed(ack, iss, got)
    ensures Suffix(SndStep(w, Ack(ack)), iss) && Dropped(SndStep(w, Ack(ack))) <= got
  {
    hide SeqNum;
    SndStepSuffix(w, iss, Ack(ack));
    var j: nat :| j <= got && ack == SeqNum(iss, j);
    SeqNumDistance(iss, Dropped(w), j);
  }

  lemma {:induction false} StepKeepsLinked(y: System, iss: u32, e: Event)
    requires SystemOk(y) && Linked(y, iss) && |Step(y, iss, e).w.accepted| < U32
    ensures Linked(Step(y, iss, e), iss)
  {
    hide SeqNum, InOrder, Suffix, Passed, SndStep, RcvStep;
    match e
    case AppWrite(data) => WriteKeepsLinked(y, iss, data);
    case Segment(at, n) =>
      var y' := Step(y, iss, e);
      RcvStepInOrder(y.r, y.w.accepted, iss, Data(at, n));
      PassedGrows(y.acks, iss, Got(y.r), Got(y'.r));
      NextIsPassed(y'.r, y.w.accepted, iss);
    case AppRead(max) =>
      RcvStepInOrder(y.r, y.w.accepted, iss, Read(max));
      PassedGrows(y.acks, iss, Got(y.r), Got(RcvStep(y.r, y.w.accepted, iss, Read(max))));
    case AckArrives(k) =>
      GotInStream(y.r, y.w.accepted, iss);
      AcceptedByAck(y.w);
      if k < |y.acks| {
        AckDropsPassed(y.w, iss, y.acks[k], Got(y.r));
      }
  }

  lemma {:induction false} WriteKeepsLinked(y: System, iss: u32, data: seq<byte>)
    requires SystemOk(y) && Linked(y, iss)
    ensures Linked(Step(y, iss, AppWrite(data)), iss)
  {
    hide SeqNum, InOrder, Passed, Suffix;
    SndStepSuffix(y.w, iss, Write(data));
    InOrderGrows(y.r, y.w.accepted, data, iss);
  }

  lemma {:induction false} NextIsPassed(r: Reader, s: seq<byte>, iss: u32)
    requires InOrder(r, s, iss)
    ensures Passed(r.c.nxt, iss, Got(r))
  {}

  lemma {:induction false} GotInStream(r: Reader, s: seq<byte>, iss: u32)
    requires InOrder(r, s, iss)
    ensures Got(r) <= |s|
  {}

  lemma {:induction false} AcceptedByAck(w: Writer)
    requires TcbOk(w.c)
    ensures forall a :: SndStep(w, Ack(a)).accepted == w.accepted
  {}

  lemma {:induction false} AcceptedGrows(y: System, iss: u32, es: seq<Event>)
    requires SystemOk(y) && es != []
    ensures |Run(y, iss, es[..|es| - 1]).w.accepted| <= |Run(y, iss, es).w.accepted|
  {}

  /** End to end, for any interleaving of writes, reads, segments (lost, repeated, reordered) and
      acknowledgements (lost, repeated, stale): what the application has read is a prefix of what
      was written, and every byte written is at the receiver or still in the send buffer. */
  lemma {:induction false} NoByteLost(w: Tcb, r: Tcb, es: seq<Event>)
    requires TcbOk(w) && TcbOk(r) && w.pending == [] && r.inbox == [] && r.nxt == w.una
    requires |Run(Opened(w, r), w.una, es).w.accepted| < U32
    ensures var y := Run(Opened(w, r), w.una, es);
      && y.r.read <= y.w.accepted
      && Linked(y, w.una)
      && y.w.accepted == (y.r.read + y.r.c.inbox)[..Dropped(y.w)] + y.w.c.pending
    decreases |es|
  {
    hide Linked, Step, TcbOk;
    var y0 := Opened(w, r);
    var y := Run(y0, w.una, es);
    if es == [] {
      FreshSystem(w, r);
    } else {
      AcceptedGrows(y0, w.una, es);
      NoByteLost(w, r, es[..|es| - 1]);
      StepKeepsLinked(Run(y0, w.una, es[..|es| - 1]), w.una, es[|es| - 1]);
    }
    LinkedConserves(y, w.una);
  }

  lemma {:induction false} FreshSystem(w: Tcb, r: Tcb)
    requires w.pending == [] && r.inbox == [] && r.nxt == w.una
    ensures Linked(Opened(w, r), w.una)
  {
    assert r.nxt == SeqNum(w.una, 0);
  }

  lemma {:induction false} LinkedConserves(y: System, iss: u32)
    requires Linked(y, iss)
    ensures y.r.read <= y.w.accepted && 0 <= Dropped(y.w) <= Got(y.r)
    ensures y.w.accepted == (y.r.read + y.r.c.inbox)[..Dropped(y.w)] + y.w.c.pending
  {
    var g := Got(y.r);
    assert y.r.read + y.r.c.inbox == y.w.accepted[..g];
    assert y.w.accepted[..|y.r.read|] == y.w.accepted[..g][..|y.r.read|] == y.r.read;
  }

  /** Every value rcv_nxt ever had, the present one included, is among those that can still arrive. */
  lemma {:induction false} PresentIsSent(w: Tcb, r: Tcb, iss: u32, es: seq<Event>)
    requires TcbOk(w) && TcbOk(r)
    ensures Run(Opened(w, r), iss, es).r.c.nxt in Run(Opened(w, r), iss, es).acks
    decreases |es|
  {
    hide SndStep, TcbOk, OnData;
    if es != [] {
      PresentIsSent(w, r, iss, es[..|es| - 1]);
      SentAfterStep(Run(Opened(w, r), iss, es[..|es| - 1]), iss, es[|es| - 1]);
    }
  }

  lemma {:induction false} SentAfterStep(y: System, iss: u32, e: Event)
    requires SystemOk(y) && y.r.c.nxt in y.acks
    ensures Step(y, iss, e).r.c.nxt in Step(y, iss, e).acks
  {}

  /** When the present value arrives, the sender drops exactly what the receiver has: its buffer then
      holds the bytes not yet received. */
  lemma {:induction false} LatestAckDrops(y: System, iss: u32, k: nat)
    requires SystemOk(y) && Linked(y, iss) && |y.w.accepted| < U32
    requires k < |y.acks| && y.acks[k] == y.r.c.nxt
    ensures Dropped(Step(y, iss, AckArrives(k)).w) == Got(y.r)
    ensures Step(y, iss, AckArrives(k)).w.c.pending == y.w.accepted[Got(y.r)..]
  {
    hide SeqNum;
    SeqNumDistance(iss, Dropped(y.w), Got(y.r));
  }

  // ---------------------------------------------------------------- one connection, both directions

  datatype ConnEvent = Wrote(data: seq<byte>) | DidRead(max: nat) | Arrived(a: Arriving)

  datatype Conn = Conn(c: Tcb, accepted: seq<byte>, read: seq<byte>)

  function ConnStep(x: Conn, e: ConnEvent): (x': Conn)
    requires TcbOk(x.c)
    ensures TcbOk(x'.c)
  {
    match e
    case Wrote(data) => Conn(Send(x.c, data), if Fits(x.c, data) then x.accepted + data else x.accepted, x.read)
    case DidRead(max) => Conn(Receive(x.c, max), x.accepted, x.read + Take(x.c, max))
    case Arrived(a) => x.(c := OnSegment(x.c, a))
  }

  function ConnRun(c: Tcb, es: seq<ConnEvent>): (x: Conn)
    requires TcbOk(c)
    ensures TcbOk(x.c)
  {
    if es == [] then Conn(c, [], []) else ConnStep(ConnRun(c, es[..|es| - 1]), es[|es| - 1])
  }

  /** The data of a segment is a slice of s under its sequence number. */
  ghost predicate SliceOf(a: Arriving, s: seq<byte>, start: u32) {
    exists at: nat :: SliceAt(a, s, start, at)
  }

  predicate SliceAt(a: Arriving, s: seq<byte>, start: u32, at: nat) {
    at + |a.data| <= |s| && a.s == SeqNum(start, at) && a.data == s[at..at + |a.data|]
  }

  ghost predicate Slices(es: seq<ConnEvent>, s: seq<byte>, start: u32) {
    forall i | 0 <= i < |es| && es[i].Arrived? :: SliceOf(es[i].a, s, start)
  }

  lemma {:induction false} AckLeavesReader(c: Tcb, read: seq<byte>, ack: u32, s: seq<byte>, start: u32)
    requires InOrder(Reader(c, read), s, start)
    ensures InOrder(Reader(OnAck(c, ack), read), s, start)
  {
    hide SeqNum;
  }

  lemma {:induction false} DataLeavesWriter(c: Tcb, accepted: seq<byte>, n: u32, data: seq<byte>, iss: u32)
    requires TcbOk(c) && Suffix(Writer(c, accepted), iss)
    ensures Suffix(Writer(OnData(c, n, data), accepted), iss)
  {
    hide SeqNum;
  }

  lemma {:induction false} SegmentStep(x: Conn, a: Arriving, s: seq<byte>, start: u32, iss: u32)
    requires TcbOk(x.c) && |s| < U32 && SliceOf(a, s, start)
    requires InOrder(Reader(x.c, x.read), s, start) && Suffix(Writer(x.c, x.accepted), iss)
    ensures InOrder(Reader(OnSegment(x.c, a), x.read), s, start)
    ensures Suffix(Writer(OnSegment(x.c, a), x.accepted), iss)
  {
    hide InOrder, Suffix, OnAck, OnData, SeqNum, SliceAt;
    var c := if a.isAck then OnAck(x.c, a.ack) else x.c;
    if a.isAck {
      AckLeavesReader(x.c, x.read, a.ack, s, start);
      SndStepSuffix(Writer(x.c, x.accepted), iss, Ack(a.ack));
    }
    DataLeavesWriter(c, x.accepted, a.s, a.data, iss);
    var at: nat :| SliceAt(a, s, start, at);
    SliceIsData(a, s, start, at);
    RcvStepInOrder(Reader(c, x.read), s, start, Data(at, |a.data|));
  }

  lemma {:induction false} SliceIsData(a: Arriving, s: seq<byte>, start: u32, at: nat)
    requires SliceAt(a, s, start, at)
    ensures at + |a.data| <= |s| && a.s == SeqNum(start, at) && a.data == s[at..at + |a.data|]
  {}

  lemma {:induction false} ReadStep(x: Conn, max: nat, s: seq<byte>, start: u32, iss: u32)
    requires TcbOk(x.c) && |s| < U32
    requires InOrder(Reader(x.c, x.read), s, start) && Suffix(Writer(x.c, x.accepted), iss)
    ensures var x' := ConnStep(x, DidRead(max));
      InOrder(Reader(x'.c, x'.read), s, start) && Suffix(Writer(x'.c, x'.accepted), iss)
  {
    hide SeqNum, InOrder;
    RcvStepInOrder(Reader(x.c, x.read), s, start, Read(max));
  }

  lemma {:induction false} WriteStep(x: Conn, data: seq<byte>, s: seq<byte>, start: u32, iss: u32)
    requires TcbOk(x.c)
    requires InOrder(Reader(x.c, x.read), s, start) && Suffix(Writer(x.c, x.accepted), iss)
    ensures var x' := ConnStep(x, Wrote(data));
      InOrder(Reader(x'.c, x'.read), s, start) && Suffix(Writer(x'.c, x'.accepted), iss)
  {
    hide SeqNum, Suffix;
    SndStepSuffix(Writer(x.c, x.accepted), iss, Write(data));
  }

  /** Both directions of one connection under any sequence of calls and arriving segments: the
      inbound side stays a prefix of the peer's stream, the outbound side the unacknowledged
      suffix of its own. */
  lemma {:induction false} DuplexInOrder(c: Tcb, es: seq<ConnEvent>, s: seq<byte>)
    requires TcbOk(c) && c.pending == [] && c.inbox == [] && |s| < U32 && Slices(es, s, c.nxt)
    ensures InOrder(Reader(ConnRun(c, es).c, ConnRun(c, es).read), s, c.nxt)
    ensures Suffix(Writer(ConnRun(c, es).c, ConnRun(c, es).accepted), c.una)
    decreases |es|
  {
    hide InOrder, Suffix, ConnStep, TcbOk;
    if es == [] {
      FreshReader(c, s, c.nxt);
      FreshWriter(c);
    } else {
      var n := |es| - 1;
      DuplexInOrder(c, es[..n], s);
      var x := ConnRun(c, es[..n]);
      match es[n]
      case Wrote(data) => WriteStep(x, data, s, c.nxt, c.una);
      case DidRead(max) => ReadStep(x, max, s, c.nxt, c.una);
      case Arrived(a) =>
        SegmentStep(x, a, s, c.nxt, c.una);
        StepOnSegment(x, a);
    }
  }

  lemma {:induction false} StepOnSegment(x: Conn, a: Arriving)
    requires TcbOk(x.c)
    ensures ConnStep(x, Arrived(a)) == x.(c := OnSegment(x.c, a))
  {}
}
