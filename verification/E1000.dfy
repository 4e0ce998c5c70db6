/** e1000_init_rx and e1000_receive_packet (drivers/e1000.c), with the device storing frames between
    any two accesses of the driver. */
module E1000 {
  import opened Bits
  import opened Common
  import opened RxRingSpec

  class Device {
    const descs: array<Desc>       // rx_descs and rx_buffers
    var cur: nat                   // rx_cur
    var rdh: nat                   // the device's head register
    var rdt: nat                   // the tail register
    ghost var phase: Phase
    ghost var accepted: seq<Frame>
    ghost var delivered: seq<seq<byte>>

    /** e1000_init_rx; the buffers hold arbitrary bytes. */
    constructor (buffers: seq<Frame>)
      requires |buffers| == RING
      ensures Initial(View()) && Inv(View())
    {
      descs := new Desc[RING](i requires 0 <= i < RING => Desc(false, buffers[i]));
      cur, rdh, rdt := 0, 0, RING - 1;
      phase, accepted, delivered := Idle, [], [];
      new;
      InitialInv(View());
    }

    ghost function View(): State
      reads this, descs
    {
      State(descs[..], cur, rdh, rdt, phase, accepted, delivered)
    }

    /** One frame from the wire. */
    method Store(f: Frame)
      requires Inv(View())
      modifies descs, this`rdh, this`accepted
      ensures View() == DeviceStep(old(View()), f) && Inv(View())
    {
      hide Inv;
      InvShape(View());
      DeviceKeepsInv(View(), f);
      if rdh != rdt {
        descs[rdh] := Desc(true, f);
        assert descs[..] == old(descs[..])[rdh := Desc(true, f)];
        rdh := (rdh + 1) % RING;
        accepted := accepted + [f];
      }
    }

    /** What the device does between two accesses of the driver. */
    method Traffic(fs: seq<Frame>)
      requires Inv(View())
      modifies descs, this`rdh, this`accepted
      ensures Inv(View()) && old(accepted) <= accepted
    {
      hide Inv, DeviceStep;
      var i := 0;
      while i < |fs|
        invariant 0 <= i <= |fs| && Inv(View()) && old(accepted) <= accepted
      {
        StoredGrows(View(), fs[i]);
        Store(fs[i]);
        i := i + 1;
      }
    }

    /** The test of the DD bit. */
    method TestDone() returns (done: bool)
      requires Inv(View()) && phase == Idle
      modifies this`phase
      ensures Inv(View()) && View() == DriverStep(old(View()), true, 0)
      ensures phase == (if done then Seen else Idle) && (done <==> |delivered| < |accepted|)
    {
      hide Inv;
      BeginKeepsInv(View(), true, 0);
      BeginPhases(View());
      done := descs[cur].done;
      phase := if done then Seen else Idle;
    }

    /** The length field, refused above the size of a buffer. */
    method ReadLength() returns (length: nat)
      requires Inv(View()) && phase == Seen
      modifies this`phase
      ensures Inv(View()) && View() == DriverStep(old(View()), true, 0)
      ensures |delivered| < |accepted|
      ensures phase == if |accepted[|delivered|]| > BUFFER then Idle else Sized(length)
      ensures length == |accepted[|delivered|]|
    {
      hide Inv;
      BeginKeepsInv(View(), true, 0);
      BeginPhases(View());
      LengthIsHead(View());
      length := |descs[cur].frame|;
      phase := if length > BUFFER then Idle else Sized(length);
    }

    /** net_alloc_packet; `alloc` says whether blocks are free. */
    method Allocate(length: nat, alloc: bool) returns (ok: bool)
      requires Inv(View()) && phase == Sized(length)
      modifies this`phase
      ensures Inv(View()) && View() == DriverStep(old(View()), alloc, 0)
      ensures ok <==> alloc && 0 < length <= MAX_PACKET
      ensures phase == if ok then Copying(length, []) else Idle
    {
      hide Inv;
      BeginKeepsInv(View(), alloc, 0);
      ok := alloc && 0 < length <= MAX_PACKET;
      phase := if ok then Copying(length, []) else Idle;
    }

    method CopyByte(i: nat) returns (b: byte)
      requires Inv(View()) && phase.Copying? && i == |phase.got| < phase.len
      modifies this`phase
      ensures Inv(View()) && View() == DriverStep(old(View()), true, 0)
      ensures phase == Copying(old(phase).len, old(phase).got + [b])
    {
      hide Slot;
      HeadIsReady(View());
      CopyKeepsInv(View(), true, 0);
      b := descs[cur].frame[i];
      phase := Copying(phase.len, phase.got + [b]);
    }

    method ClearStatus()
      requires Inv(View()) && phase.Copying? && |phase.got| == phase.len
      modifies this`phase, descs
      ensures Inv(View()) && View() == DriverStep(old(View()), true, 0)
      ensures phase == Cleared(old(phase).got)
    {
      hide Slot, Inv;
      InvShape(View());
      ClearKeepsInv(View(), true, 0);
      descs[cur] := descs[cur].(done := false);
      assert descs[..] == old(descs[..])[cur := descs[cur]];
      phase := Cleared(phase.got);
    }

    method AdvanceCur() returns (oldCur: nat)
      requires Inv(View()) && phase.Cleared?
      modifies this`phase, this`cur
      ensures Inv(View()) && View() == DriverStep(old(View()), true, 0)
      ensures phase == Advanced(old(phase).packet) && oldCur == Slot(cur + 31)
    {
      hide Inv;
      InvShape(View());
      AdvanceKeepsInv(View(), true, 0);
      oldCur := cur;
      cur := (cur + 1) % RING;
      phase := Advanced(phase.packet);
    }

    method WriteTail(oldCur: nat)
      requires Inv(View()) && phase.Advanced? && oldCur == Slot(cur + 31)
      modifies this`phase, this`rdt, this`delivered
      ensures Inv(View()) && View() == DriverStep(old(View()), true, 0)
      ensures phase == Idle && delivered == old(delivered) + [old(phase).packet]
    {
      hide Inv, Slot;
      TailKeepsInv(View(), true, 0);
      rdt := oldCur;
      delivered := delivered + [phase.packet];
      phase := Idle;
    }

    /** The copy of the frame, during which the device goes on storing frames. */
    method CopyPacket(length: nat, bursts: seq<seq<Frame>>) returns (data: array<byte>)
      requires Inv(View()) && phase == Copying(length, [])
      modifies this`phase, this`rdh, this`accepted, descs
      ensures Inv(View()) && phase == Copying(length, data[..]) && data.Length == length && fresh(data)
      ensures old(accepted) <= accepted
    {
      hide Inv, DriverStep, Slot;
      data := new byte[length];
      var i := 0;
      while i < length
        invariant 0 <= i <= length == data.Length && Inv(View())
        invariant phase == Copying(length, data[..i])
        invariant old(accepted) <= accepted
        modifies this`phase, this`rdh, this`accepted, descs, data
      {
        Traffic(Burst(bursts, i + 2));
        var b := CopyByte(i);
        data[i] := b;
        i := i + 1;
      }
      assert data[..i] == data[..];
    }

    /** The tests, the read of the length and the allocation, with traffic in between. */
    method Begin(alloc: bool, bursts: seq<seq<Frame>>) returns (ok: bool, length: nat)
      requires Inv(View()) && phase == Idle
      modifies this`phase, this`rdh, this`accepted, descs
      ensures Inv(View()) && old(accepted) <= accepted
      ensures ok <==>
        |delivered| < |old(accepted)| && alloc && 0 < |old(accepted)[|delivered|]| <= 1518
      ensures ok ==> length == |old(accepted)[|delivered|]|
      ensures phase == if ok then Copying(length, []) else Idle
    {
      hide Inv, DriverStep, Slot;
      length := 0;
      ok := TestDone();
      if !ok {
        return;
      }
      Traffic(Burst(bursts, 0));
      length := ReadLength();
      if length > BUFFER {
        return false, length;
      }
      Traffic(Burst(bursts, 1));
      ok := Allocate(length, alloc);
    }

    /** e1000_receive_packet. Burst k arrives before the k-th access after the test of DD. */
    method ReceivePacket(alloc: bool, bursts: seq<seq<Frame>>) returns (packet: Option<array<byte>>)
      requires Inv(View()) && phase == Idle
      modifies this, descs
      ensures Inv(View()) && phase == Idle && old(accepted) <= accepted
      ensures packet.Some? <==>
        |old(delivered)| < |old(accepted)| && alloc && 0 < |old(accepted)[|old(delivered)|]| <= 1518
      ensures packet.Some? ==> fresh(packet.value) && packet.value[..] == old(accepted)[|old(delivered)|]
      ensures delivered == old(delivered) + (if packet.Some? then [packet.value[..]] else [])
    {
      hide Inv, DriverStep, Slot;
      var ok, length := Begin(alloc, bursts);
      if !ok {
        return None;
      }
      var data := CopyPacket(length, bursts);
      Traffic(Burst(bursts, length + 2));
      ClearStatus();
      Traffic(Burst(bursts, length + 3));
      var oldCur := AdvanceCur();
      Traffic(Burst(bursts, length + 4));
      PacketIsHead(View());
      WriteTail(oldCur);
      return Some(data);
    }
  }

  function Burst(bursts: seq<seq<Frame>>, k: nat): seq<Frame> {
    if k < |bursts| then bursts[k] else []
  }

  lemma {:induction false} LengthIsHead(s: State)
    requires Inv(s) && s.phase.Seen?
    ensures Shape(s) && Head(s) < |s.accepted| && s.descs[s.cur].frame == s.accepted[Head(s)]
  {
    HeadIsReady(s);
  }

  lemma {:induction false} StoredGrows(s: State, f: Frame)
    requires Inv(s)
    ensures s.accepted <= DeviceStep(s, f).accepted
  {}
}
