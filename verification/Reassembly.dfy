/** ipv4_reassemble_packet (net/ipv4.c): a table of 64 datagrams in progress, each with a buffer
    of 64 KB and a flag per eight-byte unit. */
module Reassembly {
  import opened Bits
  import opened Checksum
  import opened Common
  import opened Ipv4

  const SLOTS: nat := 64
  const UNITS: nat := 64
  const BUFFER: nat := 0x1_0000

  /** A buffer in use (its data pointer is not NULL), or a free one. */
  datatype Slot =
    | Free
    | Busy(id: u16, src: Addr, dest: Addr, protocol: byte, total: u16,
           data: seq<byte>, flags: seq<bool>, count: byte)

  predicate SlotOk(s: Slot) {
    s.Busy? ==> |s.data| == BUFFER && |s.flags| == UNITS
  }

  predicate TableOk(t: seq<Slot>) {
    |t| == SLOTS && forall i | 0 <= i < SLOTS :: SlotOk(t[i])
  }

  /** What the source relies on: the packet carries the bytes its header announces, and the
      datagram it belongs to has at most 64 units. */
  predicate Sized(f: Packet) {
    && f.h.totalLength == HEADER + |f.payload|
    && OffsetUnits(f.h) * 8 + |f.payload| <= 8 * UNITS && OffsetUnits(f.h) < UNITS
  }

  predicate SameKey(s: Slot, h: Header) {
    s.Busy? && s.id == h.id && s.src == h.src && s.dest == h.dest
  }

  /** The first buffer of this datagram, or |t|. */
  function FindKey(t: seq<Slot>, h: Header, i: nat): (k: nat)
    requires i <= |t|
    ensures i <= k <= |t|
    ensures k < |t| ==> SameKey(t[k], h)
    ensures forall j | i <= j < k :: !SameKey(t[j], h)
    decreases |t| - i
  {
    if i == |t| || SameKey(t[i], h) then i else FindKey(t, h, i + 1)
  }

  function FindFree(t: seq<Slot>, i: nat): (k: nat)
    requires i <= |t|
    ensures i <= k <= |t|
    ensures k < |t| ==> t[k].Free?
    ensures forall j | i <= j < k :: !t[j].Free?
    decreases |t| - i
  {
    if i == |t| || t[i].Free? then i else FindFree(t, i + 1)
  }

  function Fresh(h: Header, data: seq<byte>): (s: Slot)
    requires |data| == BUFFER
    ensures SlotOk(s)
  {
    Busy(h.id, h.src, h.dest, h.protocol, 0, data, seq(UNITS, _ => false), 0)
  }

  function Overwrite(data: seq<byte>, at: nat, bytes: seq<byte>): (r: seq<byte>)
    requires at + |bytes| <= |data|
    ensures |r| == |data|
    ensures forall x | 0 <= x < |data| :: r[x] == if at <= x < at + |bytes| then bytes[x - at] else data[x]
  {
    data[..at] + bytes + data[at + |bytes|..]
  }

  /** The buffer after the fragment's bytes, flag and, for the last fragment, length are stored. */
  function Stored(s: Slot, f: Packet): (s': Slot)
    requires s.Busy? && SlotOk(s) && Sized(f)
    ensures s'.Busy? && SlotOk(s')
  {
    var at := OffsetUnits(f.h) * 8;
    s.(data := Overwrite(s.data, at, f.payload),
       flags := s.flags[OffsetUnits(f.h) := true],
       count := (s.count + 1) % U8,
       total := if MoreFragments(f.h) then s.total else at + |f.payload|)
  }

  /** Length known and the first byte of every unit below it marked. */
  predicate Complete(s: Slot)
    requires s.Busy? && SlotOk(s)
  {
    0 < s.total <= 8 * UNITS && forall i | 0 <= i < (s.total + 7) / 8 :: s.flags[i]
  }

  /** The datagram handed up: the header of the fragment that completed it, with new length. */
  function Assembled(s: Slot, h: Header): Packet
    requires s.Busy? && SlotOk(s) && s.total <= 8 * UNITS
  {
    Packet(Sealed(h.(flagsOffset := 0, totalLength := HEADER + s.total)), s.data[..s.total])
  }

  /** Table and returned packet after a call. `frames` is what the allocator gives for a new buffer:
      nothing, or 64 KB of arbitrary contents; `packetFree` says if a packet can be allocated. */
  datatype Result = Result(table: seq<Slot>, packet: Option<Packet>)

  /** The buffer a fragment goes to, before it is stored. */
  function Target(t: seq<Slot>, h: Header, frames: Option<seq<byte>>): Option<(nat, Slot)>
    requires TableOk(t) && (frames.Some? ==> |frames.value| == BUFFER)
  {
    var k := FindKey(t, h, 0);
    if k < |t| then Some((k, t[k]))
    else
      var j := FindFree(t, 0);
      if j == |t| || frames.None? then None else Some((j, Fresh(h, frames.value)))
  }

  function Feed(t: seq<Slot>, f: Packet, frames: Option<seq<byte>>, packetFree: bool): (r: Result)
    requires TableOk(t) && Sized(f) && TotalsOk(t) && (frames.Some? ==> |frames.value| == BUFFER)
    ensures TableOk(r.table) && TotalsOk(r.table)
  {
    var target := Target(t, f.h, frames);
    if target.None? then Result(t, None)
    else
      var (k, s0) := target.value;
      var s := Stored(s0, f);
      if !Complete(s) || !packetFree then Result(t[k := s], None)
      else Result(t[k := Free], Some(Assembled(s, f.h)))
  }

  /** A buffer for a new datagram: its key and protocol, nothing received, no length known. */
  lemma {:induction false} FreshIs(t: seq<Slot>, h: Header, data: seq<byte>)
    requires TableOk(t) && |data| == 0x1_0000
    requires forall i | 0 <= i < |t| :: !SameKey(t[i], h)
    requires Target(t, h, Some(data)).Some?
    ensures var (k, s) := Target(t, h, Some(data)).value;
      && k < 64 && t[k].Free? && (forall i | 0 <= i < k :: t[i].Busy?)
      && s.Busy? && s.id == h.id && s.src == h.src && s.dest == h.dest && s.protocol == h.protocol
      && s.total == 0 && s.count == 0 && s.data == data && |s.flags| == 64
      && forall u | 0 <= u < 64 :: !s.flags[u]
  {}

  /** Any number of fragments stored in a buffer. */
  function StoredAll(s: Slot, fs: seq<Packet>): (s': Slot)
    requires s.Busy? && SlotOk(s) && forall i | 0 <= i < |fs| :: Sized(fs[i])
    ensures s'.Busy? && SlotOk(s')
  {
    if fs == [] then s else Stored(StoredAll(s, fs[..|fs| - 1]), fs[|fs| - 1])
  }

  /** fragment_count is the number of fragments stored, modulo 256; the key and the protocol stay. */
  lemma {:induction false} CountsFragments(s: Slot, fs: seq<Packet>)
    requires s.Busy? && SlotOk(s) && forall i | 0 <= i < |fs| :: Sized(fs[i])
    ensures var s' := StoredAll(s, fs);
      && s'.count == (s.count as nat + |fs|) % 0x100
      && s'.id == s.id && s'.src == s.src && s'.dest == s.dest && s'.protocol == s.protocol
  {
    if fs != [] {
      CountsFragments(s, fs[..|fs| - 1]);
      CountStep(s.count as nat + |fs| - 1);
    }
  }

  lemma {:induction false} CountStep(n: nat)
    ensures (n % 0x100 + 1) % 0x100 == (n + 1) % 0x100
  {}

  /** 64 datagrams can be in progress, each of up to 512 bytes; a fragment of another one is refused. */
  lemma {:induction false} FullTableRefuses(t: seq<Slot>, f: Packet, frames: Option<seq<byte>>, packetFree: bool)
    requires TableOk(t) && Sized(f) && TotalsOk(t) && (frames.Some? ==> |frames.value| == BUFFER)
    ensures |t| == 64 && OffsetUnits(f.h) * 8 + |f.payload| <= 512
    ensures (forall i | 0 <= i < 64 ::
               t[i].Busy? && !(t[i].id == f.h.id && t[i].src == f.h.src && t[i].dest == f.h.dest))
      ==> Feed(t, f, frames, packetFree) == Result(t, None)
    ensures (exists i | 0 <= i < 64 :: t[i].Free?) && frames.Some? ==> Target(t, f.h, frames).Some?
  {}

  /** No recorded length exceeds the 64 units. */
  predicate TotalsOk(t: seq<Slot>) {
    forall i | 0 <= i < |t| && t[i].Busy? :: t[i].total <= 8 * UNITS
  }

  class Ipv4Layer {
    const buffers: array<Slot> // ipv4_state.reassembly_buffers

    constructor ()
      ensures Valid() && forall i | 0 <= i < SLOTS :: buffers[i] == Free
    {
      buffers := new Slot[SLOTS](_ => Free);
    }

    ghost predicate Valid()
      reads buffers
    {
      TableOk(buffers[..]) && TotalsOk(buffers[..])
    }

    /** The search for the datagram's buffer, or for a free one. */
    method FindBuffer(h: Header, frames: Option<seq<byte>>) returns (k: int)
      requires Valid() && (frames.Some? ==> |frames.value| == BUFFER)
      modifies buffers
      ensures k == -1 ==> Target(old(buffers[..]), h, frames).None? && buffers[..] == old(buffers[..])
      ensures k != -1 ==> 0 <= k < SLOTS && Target(old(buffers[..]), h, frames) == Some((k, buffers[k]))
      ensures k != -1 ==> buffers[..] == old(buffers[..])[k := buffers[k]] && buffers[k].Busy? && Valid()
    {
      ghost var t := buffers[..];
      k := -1;
      var i := 0;
      while i < SLOTS && k == -1
        invariant 0 <= i <= SLOTS
        invariant k == -1 ==> FindKey(t, h, 0) == FindKey(t, h, i)
        invariant k != -1 ==> 0 <= k < SLOTS && FindKey(t, h, 0) == k
        modifies {}
      {
        if buffers[i].Busy? && buffers[i].id == h.id && buffers[i].src == h.src && buffers[i].dest == h.dest {
          k := i;
        }
        i := i + 1;
      }
      if k == -1 {
        i := 0;
        while i < SLOTS && k == -1
          invariant 0 <= i <= SLOTS
          invariant k == -1 ==> FindFree(t, 0) == FindFree(t, i)
          invariant k != -1 ==> 0 <= k < SLOTS && FindFree(t, 0) == k
          modifies {}
        {
          if buffers[i].Free? {
            k := i;
          }
          i := i + 1;
        }
        if k == -1 {
          return;
        }
        if frames.None? {
          return -1;
        }
        buffers[k] := Fresh(h, frames.value);
      }
    }

    /** The test whether the length is known and every unit marked. */
    method IsComplete(s: Slot) returns (complete: bool)
      requires s.Busy? && SlotOk(s) && s.total <= 8 * UNITS
      ensures complete == Complete(s)
    {
      complete := false;
      if s.total > 0 {
        var n := (s.total + 7) / 8;
        complete := true;
        var i := 0;
        while i < n && complete
          invariant 0 <= i <= n
          invariant complete ==> forall j | 0 <= j < i :: s.flags[j]
          invariant !complete ==> exists j | 0 <= j < i :: !s.flags[j]
        {
          if !s.flags[i] {
            complete := false;
          }
          i := i + 1;
        }
      }
    }

    /** ipv4_reassemble_packet. */
    method Reassemble(f: Packet, frames: Option<seq<byte>>, packetFree: bool) returns (r: Option<Packet>)
      requires Valid() && Sized(f) && (frames.Some? ==> |frames.value| == BUFFER)
      modifies buffers
      ensures Valid()
      ensures Result(buffers[..], r) == Feed(old(buffers[..]), f, frames, packetFree)
    {
      hide And, InternetChecksum, Bytes, Target, Overwrite, FindKey, FindFree;
      FlagBits(f.h.flagsOffset);
      var offset := And(f.h.flagsOffset, 0x1FFF) * 8;
      var k := FindBuffer(f.h, frames);
      if k == -1 {
        return None;
      }
      var s := buffers[k];
      ghost var s0 := s;
      var dataLen := f.h.totalLength - HEADER;
      s := s.(data := Overwrite(s.data, offset, f.payload[..dataLen]));
      s := s.(flags := s.flags[offset / 8 := true], count := (s.count + 1) % U8);
      if And(f.h.flagsOffset, 0x2000) == 0 {
        s := s.(total := offset + dataLen);
      }
      assert f.payload[..dataLen] == f.payload && s == Stored(s0, f);
      buffers[k] := s;
      var complete := IsComplete(s);
      if !complete || !packetFree {
        return None;
      }
      var h := f.h.(flagsOffset := 0, totalLength := HEADER + s.total, checksum := 0);
      var c := Ipv4Checksum(Bytes(h));
      r := Some(Packet(h.(checksum := c), s.data[..s.total]));
      buffers[k] := Free;
    }
  }
}
