/** tcp_create_connection, tcp_close_connection, tcp_cleanup and the dispatch of tcp_receive_packet
    (net/tcp.c): the linked list of connections. */
module Tcp {
  import opened Bits
  import opened Bitmaps
  import opened Holdings
  import opened Ipv4
  import opened Lists
  import opened Pmm
  import opened Seqs
  import opened SocketSpec
  import opened TcpConn
  import PmmPool
  import TcpStreams

  /** The part of tcp_config_t that creation uses; the default is 64 KB less one and sequence 0. */
  datatype Config = Default | Given(windowSize: u16, initialSeq: u32)

  function Window(c: Config): u16 {
    if c.Default? then 65535 else c.windowSize
  }

  function InitialSeq(c: Config): u32 {
    if c.Default? then 0 else c.initialSeq
  }

  ghost function Infos(cs: seq<Connection>): (s: seq<Holder<Key>>)
    ensures |s| == |cs| && forall i | 0 <= i < |s| :: s[i] == cs[i].info
  {
    if cs == [] then [] else [cs[0].info] + Infos(cs[1..])
  }

  lemma {:induction false} InfosWithout(cs: seq<Connection>, k: nat)
    requires k < |cs|
    ensures Infos(Without(cs, k)) == Without(Infos(cs), k)
  {
    hide Infos;
  }

  /** A connection as creation leaves it. */
  ghost predicate Opened(c: Connection, key: Key, config: Config)
    reads c, c.sendBuf, c.recvBuf
  {
    && c.Valid() && c.state == Closed && c.info.key == key
    && c.View() == TcpStreams.Tcb(Window(config), InitialSeq(config), [], 0, [], Window(config))
  }

  /** A new connection: closed, nothing buffered, the whole window open, numbered as configured. */
  lemma {:induction false} OpenedIs(c: Connection, key: Key, windowSize: u16, initialSeq: u32)
    requires Opened(c, key, Given(windowSize, initialSeq))
    ensures c.state == Closed && c.info.key == key && c.sndUna == initialSeq && c.rcvNxt == 0
    ensures c.sendLen == 0 && c.recvLen == 0 && c.rcvWnd == windowSize
  {
    assert |c.View().pending| == c.sendLen && |c.View().inbox| == c.recvLen;
  }

  /** Without a configuration: windows of 65535 bytes, in 16 blocks, numbered from 0. */
  lemma {:induction false} DefaultOpened(c: Connection, key: Key)
    requires Opened(c, key, Default)
    ensures c.View() == TcpStreams.Tcb(65535, 0, [], 0, [], 65535) && Pages(Window(Default)) == 16
  {}

  /** Every connection has two buffers, of at most 16 blocks each. */
  ghost predicate TwoBufsEach(s: seq<Holder<Key>>) {
    forall i | 0 <= i < |s| :: |s[i].bufs| == 2 && s[i].pages <= 16
  }

  class TcpLayer {
    const list: List<Connection>  // tcp_state.connections
    var count: u32                // tcp_state.connection_count
    const pmm: Allocator

    constructor (pmm: Allocator)
      requires pmm.Valid()
      ensures this.pmm == pmm && fresh(list) && list.nodes == [] && Valid(pmm.View())
    {
      this.pmm := pmm;
      list := new List();
      count := 0;
      new;
      NoneConsistent<Key>(pmm.View(), false);
    }

    ghost function Abs(): State<Key>
      requires pmm.Shape()
      reads list, pmm, pmm.memoryMap
    {
      State(Infos(Items(list.nodes)), pmm.Abs())
    }

    ghost predicate Valid(base: Bitmap)
      reads this, list, list.nodes, pmm, pmm.memoryMap
    {
      pmm.Valid() && list.Linked() && count == |list.nodes|
      && TwoBufsEach(Infos(Items(list.nodes))) && Consistent(base, Abs(), false)
    }

    /** The allocations of tcp_create_connection; whatever was granted is given back if any fails. */
    method Allocate(pages: u32, ghost key: Key, ghost s: State<Key>) returns (home: u32, sendAt: u32, recvAt: u32)
      requires pmm.Valid() && s.pool == pmm.Abs()
      modifies pmm.memoryMap, pmm`used
      ensures pmm.Valid() && |s.pool.v| <= MAX_BLOCKS
      ensures pmm.Abs() == Create(s, key, pages, 2).pool
      ensures Create(s, key, pages, 2).list ==
              (if home == 0 then s.list else [Holder(key, pages, home, [sendAt, recvAt])] + s.list)
    {
      hide Search, Fill, Unpack, Take, PmmPool.Found, Count, PmmPool.Step;
      sendAt, recvAt := 0, 0;
      home := pmm.AllocBlocks(1);
      if home == 0 {
        return;
      }
      PmmPool.FreeUndoesAlloc(s.pool, 1);
      ghost var p1 := pmm.Abs();
      sendAt := pmm.AllocBlocks(pages);
      ghost var p2 := pmm.Abs();
      recvAt := pmm.AllocBlocks(pages);
      TakeTwo(p1, p2, pages);
      if sendAt == 0 || recvAt == 0 {
        if sendAt != 0 {
          PmmPool.FreeUndoesAlloc(p1, pages);
          pmm.FreeBlocks(sendAt, pages);
        }
        if recvAt != 0 {
          assert false; // the same request cannot be met after it was just refused
        }
        pmm.FreeBlocks(home, 1);
        home := 0;
      }
    }

    /** tcp_create_connection. */
    method CreateConnection(key: Key, config: Config, ghost base: Bitmap) returns (node: Node?<Connection>)
      requires Valid(base)
      modifies this`count, list, pmm.memoryMap, pmm`used
      ensures Valid(base) && |old(Abs()).pool.v| <= MAX_BLOCKS
      ensures Abs() == Step(old(Abs()), CreateCall(key, Pages(Window(config))), 2, false)
      ensures node == null ==> Abs() == old(Abs()) && list.nodes == old(list.nodes)
      ensures node != null ==> list.nodes == [node] + old(list.nodes) && fresh(node) && fresh(node.item)
      ensures node != null ==> Opened(node.item, key, config) && fresh(Parts(node.item))
      ensures old(Separate(Items(list.nodes))) ==> Separate(Items(list.nodes))
    {
      hide Consistent, Create, Unpack, Items, Infos, Opened, Count;
      ghost var s := Abs();
      ConsistentSize(base, s, false);
      node := null;
      if count >= 256 {
        return;
      }
      var pages: u32 := (Window(config) + 4095) / 4096;
      CreateConsistent(base, s, false, key, pages, 2);
      var home, sendAt, recvAt := Allocate(pages, key, s);
      if home == 0 {
        return;
      }
      node := Open(Holder(key, pages, home, [sendAt, recvAt]), config);
    }

    /** Filling in the structure and adding it to the list. */
    method Open(info: Holder<Key>, config: Config) returns (node: Node<Connection>)
      requires list.Linked() && count == |list.nodes| < 256
      modifies this`count, list
      ensures list.Linked() && list.nodes == [node] + old(list.nodes) && count == |list.nodes|
      ensures fresh(node) && Opened(node.item, info.key, config) && fresh(Parts(node.item)) && node.item.info == info
      ensures Infos(Items(list.nodes)) == [info] + Infos(Items(old(list.nodes)))
      ensures old(Separate(Items(list.nodes))) ==> Separate(Items(list.nodes))
    {
      hide Infos, Items, Distinct;
      ghost var cs := Items(list.nodes);
      var conn := new Connection(info, Window(config), InitialSeq(config));
      node := Register(conn);
      if old(Separate(Items(list.nodes))) {
        forall i | 0 <= i < |cs|
          ensures Parts(conn) !! Parts(cs[i]) && cs[i].Valid()
        {
          assert old(cs[i].Valid());
        }
        SeparateCons(conn, cs);
      }
    }

    /** Adding the new connection at the head of the list. */
    method Register(conn: Connection) returns (node: Node<Connection>)
      requires list.Linked() && count == |list.nodes| < 256
      modifies this`count, list
      ensures list.Linked() && list.nodes == [node] + old(list.nodes) && count == |list.nodes|
      ensures fresh(node) && node.item == conn
      ensures Items(list.nodes) == [conn] + Items(old(list.nodes))
      ensures Infos(Items(list.nodes)) == [conn.info] + Infos(Items(old(list.nodes)))
    {
      node := new Node(conn);
      list.Push(node);
      InfosCons(conn, Items(old(list.nodes)));
      count := count + 1;
    }

    /** Freeing the two buffers and the structure. */
    method Release(h: Holder<Key>)
      requires pmm.Shape() && |h.bufs| == 2
      modifies pmm.memoryMap, pmm`used
      ensures pmm.Abs() == Released(old(pmm.Abs()), h)
    {
      hide Fill, Unpack, Count, PmmPool.Step;
      TwoBufs(pmm.Abs(), h);
      pmm.FreeBlocks(h.bufs[0], h.pages);
      pmm.FreeBlocks(h.bufs[1], h.pages);
      pmm.FreeBlocks(h.home, 1);
    }

    /** tcp_close_connection. k is the place of the connection in the list, or the length of the list. A
        connection that is not in the list is freed all the same. */
    method CloseConnection(node: Node<Connection>, ghost k: nat, ghost base: Bitmap)
      requires Valid(base) && IndexOf(list.nodes, node, k) && |node.item.info.bufs| == 2
      modifies this`count, list, list.nodes, pmm.memoryMap, pmm`used
      ensures k < |old(list.nodes)| ==>
        Valid(base) && list.nodes == Without(old(list.nodes), k) && Abs() == Close(old(Abs()), k)
      ensures k == |old(list.nodes)| ==>
        && list.nodes == old(list.nodes) && list.Linked() && count == old(count)
        && pmm.Abs() == Released(old(pmm.Abs()), node.item.info)
    {
      hide Consistent, Unpack, Items, Infos, Frames, PartsApart, Released, Count;
      ghost var s := Abs();
      var prev, found := FindPrevious(node, k);
      if found {
        CloseConsistent(base, s, false, k);
        ConsistentPool(base, Close(s, k), false);
        list.Remove(node, prev, k);
        ItemsWithout(old(list.nodes), k);
        InfosWithout(Items(old(list.nodes)), k);
        count := count - 1;
      }
      Release(node.item.info);
    }

    /** The walk over pointers to next fields until the connection is found, or to the end. */
    method FindPrevious(node: Node<Connection>, ghost k: nat) returns (prev: Node?<Connection>, found: bool)
      requires list.Linked() && IndexOf(list.nodes, node, k)
      ensures found <==> k < |list.nodes|
      ensures found ==> list.At(k, prev, node)
    {
      var curr := list.head;
      prev := null;
      ghost var i := 0;
      while curr != null && curr != node
        invariant list.At(i, prev, curr) && i <= k
        decreases |list.nodes| - i
      {
        ghost var before := prev;
        prev := curr;
        curr := list.Advance(curr, before, i);
        i := i + 1;
      }
      found := curr != null;
      if found {
        list.Position(i, k);
      }
    }

    /** The search of tcp_receive_packet for the connection of a segment. */
    method Lookup(f: Fields, src: Addr, dest: Addr) returns (node: Node?<Connection>, ghost k: nat)
      requires list.Linked()
      ensures k == FirstAddressed(Items(list.nodes), f, src, dest, 0)
      ensures node == null <==> FirstAddressed(Items(list.nodes), f, src, dest, 0) == |list.nodes|
      ensures node != null ==> node == list.nodes[FirstAddressed(Items(list.nodes), f, src, dest, 0)]
    {
      ghost var cs := Items(list.nodes);
      var prev: Node?<Connection> := null;
      node, k := list.head, 0;
      while node != null && !Addressed(node.item.info.key, f, src, dest)
        invariant list.At(k, prev, node)
        invariant FirstAddressed(cs, f, src, dest, 0) == FirstAddressed(cs, f, src, dest, k)
        decreases |list.nodes| - k
      {
        ghost var before := prev;
        prev := node;
        node := list.Advance(node, before, k);
        k := k + 1;
      }
    }

    /** tcp_receive_packet: at most the first connection with the segment's addresses and ports is
        touched, and it changes as OnSegment says; k is its place, or the number of connections. */
    method ReceivePacket(packet: seq<byte>, src: Addr, dest: Addr, ghost cs: seq<Connection>) returns (ghost k: nat)
      requires list.Linked() && cs == Items(list.nodes) && Separate(cs) && |packet| + U16 <= U32
      modifies AllParts(cs)
      ensures Separate(cs)
      ensures forall i | 0 <= i < |cs| && i != k :: UnchangedConn(cs[i])
      ensures k == if WellSized(packet) then FirstAddressed(cs, Parse(packet), src, dest, 0) else |cs|
      ensures k < |cs| ==> Handled(cs[k], packet)
    {
      hide Shr, Parse, TcpStreams.OnSegment, Items, FirstAddressed;
      k := |cs|;
      if |packet| < TCP_HEADER {
        return;
      }
      var f := Parse(packet);
      ShiftFour(f.dataOffset);
      var headerLen := Shr(f.dataOffset, 4) * 4;
      if headerLen < TCP_HEADER || headerLen > |packet| {
        return;
      }
      var node, i := Lookup(f, src, dest);
      k := i;
      if node != null {
        assert node.item == cs[i];
        Dispatch(node.item, packet, cs, i);
      }
    }

    /** tcp_cleanup. */
    method Cleanup(ghost base: Bitmap)
      requires Valid(base)
      modifies this`count, list, list.nodes, pmm.memoryMap, pmm`used
      ensures Valid(base) && list.nodes == [] && count == 0 && Abs() == CloseAll(old(Abs())) && pmm.View() == base
    {
      hide Consistent, Unpack, Items, Close;
      CloseAllRestores(base, Abs(), false);
      var node := list.head;
      while node != null
        invariant Valid(base) && node == list.head
        invariant forall i | 0 <= i < |list.nodes| :: list.nodes[i] in old(list.nodes)
        decreases |list.nodes|
      {
        assert LinksTo(list.nodes[0], list.nodes, 0);
        var next := node.next;
        CloseConnection(node, 0, base);
        node := next;
      }
      CloseAllRestores(base, Abs(), false);
    }
  }

  /** The connection a segment between these addresses belongs to. */
  predicate Addressed(k: Key, f: Fields, src: Addr, dest: Addr) {
    k.localPort == f.destPort && k.remotePort == f.srcPort && k.local == dest && k.remote == src
  }

  /** In terms of the bytes of the segment: source port at 0, destination port at 2. */
  lemma {:induction false} AddressedBytes(k: Key, p: seq<byte>, src: Addr, dest: Addr)
    requires |p| >= 20
    ensures Addressed(k, Parse(p), src, dest) <==>
      && k.remotePort % 256 == p[0] && k.remotePort / 256 == p[1] && k.remote == src
      && k.localPort % 256 == p[2] && k.localPort / 256 == p[3] && k.local == dest
  {
    hide LongBytes;
    ParseLayout(p);
  }

  /** The first connection, from i on, that the segment belongs to; |cs| if there is none. */
  function FirstAddressed(cs: seq<Connection>, f: Fields, src: Addr, dest: Addr, i: nat): (k: nat)
    requires i <= |cs|
    ensures i <= k <= |cs|
    ensures k < |cs| ==> Addressed(cs[k].info.key, f, src, dest)
    ensures forall j | i <= j < k :: !Addressed(cs[j].info.key, f, src, dest)
    decreases |cs| - i
  {
    if i == |cs| || Addressed(cs[i].info.key, f, src, dest) then i else FirstAddressed(cs, f, src, dest, i + 1)
  }

  /** The objects a connection's segments may change. */
  ghost function Parts(c: Connection): set<object> {
    {c, c.sendBuf, c.recvBuf}
  }

  ghost function AllParts(cs: seq<Connection>): (s: set<object>)
    ensures forall i | 0 <= i < |cs| :: Parts(cs[i]) <= s
  {
    if cs == [] then {} else Parts(cs[0]) + AllParts(cs[1..])
  }

  /** Distinct connections share no buffer, and each is well formed. */
  ghost predicate Separate(cs: seq<Connection>)
    reads AllParts(cs)
  {
    && (forall i {:trigger cs[i].Valid()} | 0 <= i < |cs| :: cs[i].Valid())
    && (forall i, j | 0 <= i < j < |cs| :: Parts(cs[i]) !! Parts(cs[j]))
  }

  lemma {:induction false} SeparateCons(c: Connection, cs: seq<Connection>)
    requires Separate(cs) && c.Valid() && forall i | 0 <= i < |cs| :: Parts(c) !! Parts(cs[i])
    ensures Separate([c] + cs)
  {
    var ds := [c] + cs;
    forall i, j | 0 <= i < j < |ds|
      ensures Parts(ds[i]) !! Parts(ds[j])
    {
      assert ds[j] == cs[j - 1];
      assert i > 0 ==> ds[i] == cs[i - 1];
    }
    forall i | 0 <= i < |ds|
      ensures ds[i].Valid()
    {
      assert i > 0 ==> ds[i] == cs[i - 1] && cs[i - 1].Valid();
    }
  }

  /** The found connection takes the segment; the others keep everything. */
  method Dispatch(conn: Connection, packet: seq<byte>, ghost cs: seq<Connection>, ghost k: nat)
    requires k < |cs| && conn == cs[k] && Separate(cs) && WellSized(packet) && |packet| + U16 <= U32
    modifies Parts(conn)
    ensures Separate(cs)
    ensures forall i | 0 <= i < |cs| && i != k :: UnchangedConn(cs[i])
    ensures Handled(conn, packet)
  {
    hide TcpStreams.OnSegment;
    assert conn.Valid();
    conn.Process(packet);
    forall i | 0 <= i < |cs| && i != k
      ensures UnchangedConn(cs[i]) && cs[i].Valid()
    {
      assert Parts(cs[i]) !! Parts(cs[k]) by {
        assert if i < k then Parts(cs[i]) !! Parts(cs[k]) else Parts(cs[k]) !! Parts(cs[i]);
      }
      assert old(cs[i].Valid());
    }
  }

  /** An established connection has changed as the segment says; any other keeps its streams. */
  twostate predicate Handled(c: Connection, packet: seq<byte>)
    requires WellSized(packet)
    reads c, c.sendBuf, c.recvBuf
  {
    && c.Valid() && old(c.Valid()) && c.state == old(c.state)
    && c.View()
       == if c.state == Established then TcpStreams.OnSegment(old(c.View()), SegmentOf(packet)) else old(c.View())
  }

  /** Nothing of the connection has changed. */
  twostate predicate UnchangedConn(c: Connection)
    reads c, c.sendBuf, c.recvBuf
  {
    unchanged(c) && unchanged(c.sendBuf) && unchanged(c.recvBuf)
  }

  lemma {:induction false} InfosCons(c: Connection, cs: seq<Connection>)
    ensures Infos([c] + cs) == [c.info] + Infos(cs)
  {
    assert ([c] + cs)[1..] == cs;
  }

  lemma {:induction false} TwoBufs(p: PmmPool.Pool, h: Holder<Key>)
    requires |h.bufs| == 2
    ensures Give(p, h.bufs, h.pages)
      == PmmPool.Step(PmmPool.Step(p, PmmPool.FreeMany(h.bufs[0], h.pages)), PmmPool.FreeMany(h.bufs[1], h.pages))
  {
    hide PmmPool.Step;
    assert h.bufs[1..] == [h.bufs[1]] && h.bufs[1..][1..] == [];
    var p1 := PmmPool.Step(p, PmmPool.FreeMany(h.bufs[0], h.pages));
    assert Give(p1, h.bufs[1..], h.pages) == PmmPool.Step(p1, PmmPool.FreeMany(h.bufs[1], h.pages));
  }

  lemma {:induction false} TakeTwo(p: PmmPool.Pool, p': PmmPool.Pool, pages: u32)
    requires |p.v| <= MAX_BLOCKS && p' == PmmPool.Step(p, PmmPool.AllocMany(pages))
    ensures PmmPool.Found(p, pages) == -1 ==> p' == p
    ensures PmmPool.Found(p, pages) >= -1 && PmmPool.Found(p', pages) >= -1
    ensures var a, b := PmmPool.Found(p, pages), PmmPool.Found(p', pages);
      && (a != -1 ==> a + pages <= |p.v|) && (b != -1 ==> b + pages <= |p.v|)
      && Take(p, pages, 2) == if a == -1 || b == -1 then Refused
         else Granted([a * 4096, b * 4096], PmmPool.Step(p', PmmPool.AllocMany(pages)))
  {
    hide PmmPool.Found;
    FoundInside(p, pages);
    FoundInside(p', pages);
    TakeOne(p', pages);
  }
}
