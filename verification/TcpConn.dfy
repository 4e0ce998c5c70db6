/** An established TCP connection with its two in-place buffers: tcp_send, tcp_receive and the
    ESTABLISHED branch of tcp_receive_packet (net/tcp.c). */
module TcpConn {
  import opened Bits
  import opened Checksum
  import opened Ipv4
  import opened SocketSpec
  import opened TcpStreams

  const TCP_HEADER: nat := 20
  const FLAG_ACK: nat := 0x10

  datatype ConnState =
    | Closed | Listen | SynSent | SynReceived | Established
    | FinWait1 | FinWait2 | CloseWait | Closing | LastAck | TimeWait

  /** The four values that identify a connection. */
  datatype Key = Key(local: Addr, localPort: u16, remote: Addr, remotePort: u16)

  /** A 32-bit load of the little-endian host. */
  function Long(b0: byte, b1: byte, b2: byte, b3: byte): u32 {
    b0 + 0x100 * b1 + 0x1_0000 * b2 + 0x100_0000 * b3
  }

  /** The header fields the receiver looks at, as the packed struct lays them out. */
  datatype Fields = Fields(
    srcPort: u16, destPort: u16, seqNum: u32, ackNum: u32, dataOffset: byte, flags: byte, window: u16)

  function Parse(p: seq<byte>): Fields
    requires |p| >= TCP_HEADER
  {
    Fields(Word(p[0], p[1]), Word(p[2], p[3]), Long(p[4], p[5], p[6], p[7]), Long(p[8], p[9], p[10], p[11]),
           p[12], p[13], Word(p[14], p[15]))
  }

  /** The length of the header, options included, in bytes. */
  function HeaderLen(f: Fields): nat {
    f.dataOffset / 16 * 4
  }

  /** A segment long enough for the header it announces. */
  predicate WellSized(p: seq<byte>) {
    |p| >= TCP_HEADER && TCP_HEADER <= HeaderLen(Parse(p)) <= |p|
  }

  predicate AckFlag(f: Fields) {
    f.flags / 16 % 2 == 1
  }

  /** What a packet says to an established connection. */
  function SegmentOf(p: seq<byte>): Arriving
    requires WellSized(p)
  {
    var f := Parse(p);
    Arriving(AckFlag(f), f.ackNum, f.seqNum, p[HeaderLen(f)..])
  }

  /** The wire layout of the header: every field at its bytes, least significant first. */
  lemma {:induction false} ParseLayout(p: seq<byte>)
    requires |p| >= 20
    ensures Parse(p).srcPort % 256 == p[0] && Parse(p).srcPort / 256 == p[1]
    ensures Parse(p).destPort % 256 == p[2] && Parse(p).destPort / 256 == p[3]
    ensures LongBytes(Parse(p).seqNum) == p[4..8] && LongBytes(Parse(p).ackNum) == p[8..12]
    ensures Parse(p).dataOffset == p[12] && Parse(p).flags == p[13]
    ensures Parse(p).window % 256 == p[14] && Parse(p).window / 256 == p[15]
  {
    hide LongBytes, Long, Word;
    LongSplits(p[4], p[5], p[6], p[7]);
    LongSplits(p[8], p[9], p[10], p[11]);
    WordSplits(p[0], p[1]);
    WordSplits(p[2], p[3]);
    WordSplits(p[14], p[15]);
  }

  lemma {:induction false} WordSplits(lo: byte, hi: byte)
    ensures Word(lo, hi) % 256 == lo && Word(lo, hi) / 256 == hi
  {
    DivModUnique(Word(lo, hi), 256, hi, lo);
  }

  lemma {:induction false} LongBytesInjective(x: u32, y: u32)
    requires LongBytes(x) == LongBytes(y)
    ensures x == y
  {
    BytesMakeLong(x);
    BytesMakeLong(y);
  }

  lemma {:induction false} BytesMakeLong(x: u32)
    ensures var b := LongBytes(x); x == Long(b[0], b[1], b[2], b[3])
  {
    assert x / 0x1_0000 == x / 0x100 / 0x100 && x / 0x100_0000 == x / 0x100 / 0x100 / 0x100;
  }

  /** The four bytes of a 32-bit value in memory. */
  function LongBytes(x: u32): (b: seq<byte>)
    ensures |b| == 4
  {
    [x % 0x100, x / 0x100 % 0x100, x / 0x1_0000 % 0x100, x / 0x100_0000]
  }

  lemma {:induction false} LongSplits(b0: byte, b1: byte, b2: byte, b3: byte)
    ensures LongBytes(Long(b0, b1, b2, b3)) == [b0, b1, b2, b3]
  {
    var x := Long(b0, b1, b2, b3);
    DivModUnique(x, 0x100, b1 + 0x100 * b2 + 0x1_0000 * b3, b0);
    DivModUnique(x / 0x100, 0x100, b2 + 0x100 * b3, b1);
    DivModUnique(x, 0x1_0000, b2 + 0x100 * b3, b0 + 0x100 * b1);
    DivModUnique(x / 0x1_0000, 0x100, b3, b2);
    DivModUnique(x, 0x100_0000, b3, b0 + 0x100 * b1 + 0x1_0000 * b2);
  }

  /** The raw packet carries n bytes of s, from byte `at` on, under the sequence number of that byte. */
  predicate CarriesAt(p: seq<byte>, s: seq<byte>, start: u32, at: nat, n: nat) {
    && |p| >= 20 && 5 <= p[12] / 16 && |p| == 4 * (p[12] / 16) + n && at + n <= |s|
    && p[4..8] == LongBytes((start + at) % 0x1_0000_0000)
    && p[4 * (p[12] / 16)..] == s[at..at + n]
  }

  ghost predicate Carries(p: seq<byte>, s: seq<byte>, start: u32) {
    exists at: nat, n: nat :: CarriesAt(p, s, start, at, n)
  }

  /** Such a packet says to the connection that this slice has arrived, and acknowledges what its
      acknowledgement field says if the ACK flag is set. */
  lemma {:induction false} CarriesSlice(p: seq<byte>, s: seq<byte>, start: u32)
    requires Carries(p, s, start)
    ensures |p| >= 20 && WellSized(p) && SliceOf(SegmentOf(p), s, start)
    ensures SegmentOf(p).isAck <==> p[13] / 16 % 2 == 1
    ensures LongBytes(SegmentOf(p).ack) == p[8..12]
    ensures SegmentOf(p).data == p[4 * (p[12] / 16)..]
  {
    hide LongBytes, Long;
    var at: nat, n: nat :| CarriesAt(p, s, start, at, n);
    ParseLayout(p);
    LongBytesInjective(Parse(p).seqNum, (start + at) % 0x1_0000_0000);
    assert SliceAt(SegmentOf(p), s, start, at);
  }

  lemma {:induction false} AckBit(flags: byte)
    ensures And(flags, 0x10) != 0 <==> flags / 16 % 2 == 1
  {
    hide And;
    assert Pow2(4) == 16 by {
      Pow2Values();
    }
    AndSingleBit(flags, 4);
    BitIsDiv(flags, 4);
  }

  lemma {:induction false} ShiftFour(x: byte)
    ensures Shr(x, 4) == x / 16
  {
    assert Pow2(4) == 16 by {
      Pow2Values();
    }
    ShrIsDiv(x, 4);
  }

  /** memcpy into a buffer. */
  method CopyIn(buf: array<byte>, at: nat, data: seq<byte>)
    requires at + |data| <= buf.Length
    modifies buf
    ensures buf[..at + |data|] == old(buf[..at]) + data
  {
    forall i | 0 <= i < |data| {
      buf[at + i] := data[i];
    }
  }

  /** memmove of the bytes from `from` up to `len` to the start of the same buffer. */
  method ShiftDown(buf: array<byte>, from: nat, len: nat)
    requires from <= len <= buf.Length
    modifies buf
    ensures buf[..len - from] == old(buf[from..len])
  {
    forall i | 0 <= i < len - from {
      buf[i] := buf[from + i];
    }
  }

  class Connection {
    const info: Holder<Key>      // addresses, ports, and where the blocks are
    const windowSize: u16        // config.window_size
    const sendBuf: array<byte>
    const recvBuf: array<byte>
    var state: ConnState
    var sndUna: u32
    var sndNxt: u32
    var sndWnd: u32
    var rcvNxt: u32
    var rcvWnd: u32
    var sendLen: u32
    var recvLen: u32

    /** The structure as tcp_create_connection fills it in. */
    constructor (info: Holder<Key>, windowSize: u16, initialSeq: u32)
      ensures Valid() && this.info == info && this.windowSize == windowSize && fresh(sendBuf) && fresh(recvBuf)
      ensures state == Closed && sndNxt == initialSeq && sndWnd == windowSize
      ensures View() == Tcb(windowSize, initialSeq, [], 0, [], windowSize)
    {
      this.info, this.windowSize := info, windowSize;
      sendBuf, recvBuf := new byte[Pages(windowSize) * 4096], new byte[Pages(windowSize) * 4096];
      state, sndUna, sndNxt, sndWnd := Closed, initialSeq, initialSeq, windowSize;
      rcvNxt, rcvWnd, sendLen, recvLen := 0, windowSize, 0, 0;
    }

    ghost predicate Valid()
      reads this, sendBuf, recvBuf
    {
      && sendBuf != recvBuf && windowSize <= sendBuf.Length && windowSize <= recvBuf.Length
      && sendLen <= windowSize && recvLen <= windowSize && rcvWnd + recvLen == windowSize
    }

    ghost function View(): (c: Tcb)
      requires Valid()
      reads this, sendBuf, recvBuf
      ensures TcbOk(c)
    {
      Tcb(windowSize, sndUna, sendBuf[..sendLen], rcvNxt, recvBuf[..recvLen], rcvWnd)
    }

    /** tcp_send. */
    method Send(data: seq<byte>) returns (ok: bool)
      requires Valid() && |data| + U16 <= U32
      modifies this`sendLen, sendBuf
      ensures Valid() && ok == (old(state) == Established && Fits(old(View()), data))
      ensures View() == if ok then TcpStreams.Send(old(View()), data) else old(View())
    {
      if |data| == 0 || state != Established || Add32(sendLen, |data|) > windowSize {
        return false;
      }
      CopyIn(sendBuf, sendLen, data);
      sendLen := sendLen + |data|;
      return true;
    }

    /** tcp_receive. */
    method Receive(maxLength: u32) returns (data: seq<byte>)
      requires Valid()
      modifies this`recvLen, this`rcvWnd, recvBuf
      ensures Valid() && data == if old(state) == Established then TcpStreams.Take(old(View()), maxLength) else []
      ensures View() == if old(state) == Established then TcpStreams.Receive(old(View()), maxLength) else old(View())
    {
      data := [];
      if maxLength == 0 || state != Established {
        return;
      }
      var length := if maxLength < recvLen then maxLength else recvLen;
      if length == 0 {
        return;
      }
      data := recvBuf[..length];
      ghost var inbox := recvBuf[..recvLen];
      assert inbox[length..] == recvBuf[length..recvLen];
      ShiftDown(recvBuf, length, recvLen);
      recvLen := recvLen - length;
      rcvWnd := rcvWnd + length;
    }

    /** The acknowledgement part of an arriving segment. */
    method ProcessAck(ackNum: u32)
      requires Valid()
      modifies this`sendLen, this`sndUna, sendBuf
      ensures Valid() && View() == OnAck(old(View()), ackNum)
    {
      var acked := Sub32(ackNum, sndUna);
      if acked > 0 && acked <= sendLen {
        ghost var pending := sendBuf[..sendLen];
        assert pending[acked..] == sendBuf[acked..sendLen];
        ShiftDown(sendBuf, acked, sendLen);
        sendLen := sendLen - acked;
        sndUna := ackNum;
      }
    }

    /** The data part of an arriving segment. */
    method ProcessData(seqNum: u32, data: seq<byte>)
      requires Valid() && |data| + U16 <= U32
      modifies this`recvLen, this`rcvNxt, this`rcvWnd, recvBuf
      ensures Valid() && View() == OnData(old(View()), seqNum, data)
    {
      if |data| > 0 {
        if seqNum == rcvNxt && Add32(recvLen, |data|) <= windowSize {
          CopyIn(recvBuf, recvLen, data);
          recvLen := recvLen + |data|;
          rcvNxt := Add32(rcvNxt, |data|);
          rcvWnd := rcvWnd - |data|;
        }
      }
    }

    /** The switch of tcp_receive_packet for this connection: only ESTABLISHED acts. */
    method Process(packet: seq<byte>)
      requires Valid() && WellSized(packet) && |packet| + U16 <= U32
      modifies this, sendBuf, recvBuf
      ensures Valid() && state == old(state) && sndNxt == old(sndNxt)
      ensures state == Established ==> sndWnd == Parse(packet).window
      ensures state == Established ==>
        View() == OnSegment(old(View()), SegmentOf(packet))
      ensures state != Established ==> sndWnd == old(sndWnd) && View() == old(View())
    {
      hide And, OnAck, OnData;
      var f := Parse(packet);
      if state == Established {
        sndWnd := f.window;
        assert View() == old(View());
        AckBit(f.flags);
        if And(f.flags, FLAG_ACK) != 0 {
          ProcessAck(f.ackNum);
        }
        ProcessData(f.seqNum, packet[HeaderLen(f)..]);
      }
    }
  }

  // ---------------------------------------------------------------- a history of calls on the object

  datatype ConnCall = SendCall(data: seq<byte>) | ReceiveCall(max: u32) | PacketCall(packet: seq<byte>)

  /** Arriving packets carry slices of the peer's stream s, numbered from `start`; lengths leave room
      in 32 bits. */
  ghost predicate CallOk(c: ConnCall, s: seq<byte>, start: u32) {
    match c
    case SendCall(data) => |data| + U16 <= U32
    case ReceiveCall(_) => true
    case PacketCall(p) => Carries(p, s, start) && |p| + U16 <= U32
  }

  /** Any sequence of tcp_send, tcp_receive and tcp_receive_packet calls on one established connection:
      what was read, and then what is buffered, is a prefix of the peer's stream, and the send buffer is
      the unacknowledged suffix of what was accepted. */
  method Serve(conn: Connection, calls: seq<ConnCall>, ghost s: seq<byte>)
    returns (accepted: seq<byte>, read: seq<byte>)
    requires conn.Valid() && conn.state == Established && conn.View().pending == [] && conn.View().inbox == []
    requires |s| < U32 && forall i | 0 <= i < |calls| :: CallOk(calls[i], s, conn.rcvNxt)
    modifies conn, conn.sendBuf, conn.recvBuf
    ensures conn.Valid() && conn.state == Established && read <= s
    ensures InOrder(Reader(conn.View(), read), s, old(conn.rcvNxt))
    ensures Suffix(Writer(conn.View(), accepted), old(conn.sndUna))
  {
    hide InOrder, Suffix, OnSegment, Carries, SegmentOf, SliceOf, SeqNum;
    accepted, read := [], [];
    FreshReader(conn.View(), s, conn.rcvNxt);
    FreshWriter(conn.View());
    var i := 0;
    while i < |calls|
      invariant 0 <= i <= |calls| && conn.Valid() && conn.state == Established
      invariant InOrder(Reader(conn.View(), read), s, old(conn.rcvNxt))
      invariant Suffix(Writer(conn.View(), accepted), old(conn.sndUna))
    {
      ghost var x := Conn(conn.View(), accepted, read);
      assert CallOk(calls[i], s, old(conn.rcvNxt));
      match calls[i] {
        case SendCall(data) =>
          WriteStep(x, data, s, old(conn.rcvNxt), old(conn.sndUna));
          var ok := conn.Send(data);
          accepted := if ok then accepted + data else accepted;
        case ReceiveCall(max) =>
          ReadStep(x, max, s, old(conn.rcvNxt), old(conn.sndUna));
          var data := conn.Receive(max);
          read := read + data;
        case PacketCall(p) =>
          CarriesSlice(p, s, old(conn.rcvNxt));
          SegmentStep(x, SegmentOf(p), s, old(conn.rcvNxt), old(conn.sndUna));
          conn.Process(p);
      }
      i := i + 1;
    }
    ReadIsPrefix(Reader(conn.View(), read), s, old(conn.rcvNxt));
  }

  lemma {:induction false} ReadIsPrefix(r: Reader, s: seq<byte>, start: u32)
    requires InOrder(r, s, start)
    ensures r.read <= s
  {
    assert (r.read + r.c.inbox)[..|r.read|] == r.read;
  }
}
