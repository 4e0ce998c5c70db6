/** The network stack's objects side by side on one allocator: each call of one layer leaves the
    others valid, on what is then in use beyond their own. */
module NetStack {
  import opened Bits
  import opened Bitmaps
  import opened Holdings
  import opened Lists
  import opened NetRuns
  import opened Pmm
  import opened Seqs
  import FragmentBuffers
  import NetPackets
  import PmmPool
  import Routes
  import RouteSpec
  import SocketSpec
  import Tcp
  import TcpConn
  import Udp

  ghost function PacketsOf(live: seq<NetPackets.NetPacket>): (s: seq<NetPackets.Packet>)
    reads live
    ensures |s| == |live| && forall i | 0 <= i < |s| :: s[i] == live[i].Abs()
  {
    seq(|live|, i requires 0 <= i < |live| reads live => live[i].Abs())
  }

  class Stack {
    const pmm: Allocator
    const udp: Udp.UdpLayer
    const tcp: Tcp.TcpLayer
    const routes: Routes.RouteTable
    const packets: NetPackets.PacketPool
    const table: FragmentBuffers.BufferTable
    ghost var live: seq<NetPackets.NetPacket> // packets allocated and not freed

    constructor (pmm: Allocator)
      requires pmm.Valid()
      ensures this.pmm == pmm && Valid(pmm.View()) && Abs() == Net([], [], [], [], [], pmm.Abs())
    {
      hide Inv, SocketSpec.Consistent, Unpack;
      this.pmm := pmm;
      udp := new Udp.UdpLayer(pmm);
      tcp := new Tcp.TcpLayer(pmm);
      routes := new Routes.RouteTable(pmm);
      packets := new NetPackets.PacketPool(pmm);
      table := new FragmentBuffers.BufferTable(pmm);
      live := [];
      new;
      StartInv(pmm.View());
    }

    ghost function Abs(): Net
      requires pmm.Shape()
      reads this, udp.list, tcp.list, routes.list, live, table, pmm, pmm.memoryMap
    {
      Net(Items(udp.list.nodes), Tcp.Infos(Items(tcp.list.nodes)), Items(routes.list.nodes), PacketsOf(live),
        table.buffers, pmm.Abs())
    }

    /** The lists and counters of the layers, apart from who owns what. */
    ghost predicate Formed()
      reads this, udp, udp.list, udp.list.nodes, tcp, tcp.list, tcp.list.nodes, routes.list, routes.list.nodes
    {
      && udp.pmm == tcp.pmm == routes.pmm == packets.pmm == table.pmm == pmm
      && udp.list.Linked() && udp.count == |udp.list.nodes| && Udp.OneBufEach(Items(udp.list.nodes))
      && tcp.list.Linked() && tcp.count == |tcp.list.nodes| && Tcp.TwoBufsEach(Tcp.Infos(Items(tcp.list.nodes)))
      && routes.list.Linked() && Distinct(live)
    }

    ghost predicate Valid(base: Bitmap)
      reads this, udp, udp.list, udp.list.nodes, tcp, tcp.list, tcp.list.nodes, routes.list, routes.list.nodes, live,
        table, pmm, pmm.memoryMap
    {
      Formed() && pmm.Valid() && Inv(base, Abs())
    }

    /** Every layer is valid on top of what the others hold. */
    lemma {:induction false} LayersValid(base: Bitmap)
      requires Valid(base)
      ensures udp.Valid(BaseFor(base, Held(Abs()), UDP)) && udp.Abs() == Sockets(Abs())
      ensures tcp.Valid(BaseFor(base, Held(Abs()), TCP)) && tcp.Abs() == Connections(Abs())
      ensures routes.Valid(BaseFor(base, Held(Abs()), ROUTES)) && routes.Abs() == Table(Abs())
      ensures table.Valid(BaseFor(base, Held(Abs()), BUFFERS)) && table.Abs() == Shelf(Abs())
      ensures |Abs().pool.v| <= MAX_BLOCKS
    {
      hide BaseFor, Held, SocketSpec.Consistent, Routes.Consistent, NetPackets.Consistent,
        FragmentBuffers.Consistent, Items, Tcp.Infos, Unpack;
      assert pmm.View() == Abs().pool.v;
    }

    /** udp_create_socket. */
    method CreateSocket(key: Udp.Key, bufferSize: u16, ghost base: Bitmap)
      returns (socket: Node?<SocketSpec.Holder<Udp.Key>>)
      requires Valid(base)
      modifies udp`count, udp.list, pmm.memoryMap, pmm`used
      ensures Valid(base) && |old(Abs()).pool.v| <= MAX_BLOCKS
      ensures Abs() == Step(old(Abs()), UdpCall(SocketSpec.CreateCall(key, SocketSpec.Pages(bufferSize))))
    {
      hide Inv, BaseFor, Held, SocketSpec.Consistent, Routes.Consistent, NetPackets.Consistent,
        FragmentBuffers.Consistent, Items, Tcp.Infos, Unpack, SocketSpec.Step, PacketsOf;
      LayersValid(base);
      UdpStep(base, Abs(), SocketSpec.CreateCall(key, SocketSpec.Pages(bufferSize)));
      socket := udp.CreateSocket(key, bufferSize, BaseFor(base, Held(Abs()), UDP));
    }

    /** udp_close_socket, for a socket in the list (at place k) or not (k is its length). */
    method CloseSocket(socket: Udp.Socket, ghost k: nat, ghost base: Bitmap)
      requires Valid(base) && IndexOf(udp.list.nodes, socket, k) && |socket.item.bufs| == 1
      modifies udp`count, udp.list, udp.list.nodes, pmm.memoryMap, pmm`used
      ensures Formed() && pmm.Shape() && |old(Abs()).pool.v| <= MAX_BLOCKS
      ensures k < |old(udp.list.nodes)| ==>
        Valid(base) && Abs() == Step(old(Abs()), UdpCall(SocketSpec.CloseCall(k)))
      ensures k == |old(udp.list.nodes)| ==>
        Abs() == old(Abs()).(pool := SocketSpec.Released(old(Abs()).pool, socket.item))
    {
      hide Inv, BaseFor, Held, SocketSpec.Consistent, Routes.Consistent, NetPackets.Consistent,
        FragmentBuffers.Consistent, Items, Tcp.Infos, Unpack, SocketSpec.Close, SocketSpec.Released,
        PacketsOf;
      LayersValid(base);
      UdpStep(base, Abs(), SocketSpec.CloseCall(k));
      udp.CloseSocket(socket, k, BaseFor(base, Held(Abs()), UDP));
    }

    /** udp_cleanup. */
    method CleanupUdp(ghost base: Bitmap)
      requires Valid(base)
      modifies udp`count, udp.list, udp.list.nodes, pmm.memoryMap, pmm`used
      ensures Valid(base) && |old(Abs()).pool.v| <= MAX_BLOCKS
      ensures Abs() == Step(old(Abs()), UdpCall(SocketSpec.Cleanup))
    {
      hide Inv, BaseFor, Held, SocketSpec.Consistent, Routes.Consistent, NetPackets.Consistent,
        FragmentBuffers.Consistent, Items, Tcp.Infos, Unpack, SocketSpec.CloseAll, PacketsOf;
      LayersValid(base);
      UdpStep(base, Abs(), SocketSpec.Cleanup);
      udp.Cleanup(BaseFor(base, Held(Abs()), UDP));
    }

    /** tcp_create_connection. */
    method CreateConnection(key: TcpConn.Key, config: Tcp.Config, ghost base: Bitmap)
      returns (node: Node?<TcpConn.Connection>)
      requires Valid(base)
      modifies tcp`count, tcp.list, pmm.memoryMap, pmm`used
      ensures Valid(base) && |old(Abs()).pool.v| <= MAX_BLOCKS
      ensures Abs() == Step(old(Abs()), TcpCall(SocketSpec.CreateCall(key, SocketSpec.Pages(Tcp.Window(config)))))
    {
      hide Inv, BaseFor, Held, SocketSpec.Consistent, Routes.Consistent, NetPackets.Consistent,
        FragmentBuffers.Consistent, Items, Tcp.Infos, Unpack, SocketSpec.Step, PacketsOf;
      LayersValid(base);
      TcpStep(base, Abs(), SocketSpec.CreateCall(key, SocketSpec.Pages(Tcp.Window(config))));
      node := tcp.CreateConnection(key, config, BaseFor(base, Held(Abs()), TCP));
    }

    /** tcp_close_connection, for a connection in the list (at place k) or not (k is its length). */
    method CloseConnection(node: Node<TcpConn.Connection>, ghost k: nat, ghost base: Bitmap)
      requires Valid(base) && IndexOf(tcp.list.nodes, node, k) && |node.item.info.bufs| == 2
      modifies tcp`count, tcp.list, tcp.list.nodes, pmm.memoryMap, pmm`used
      ensures Formed() && pmm.Shape() && |old(Abs()).pool.v| <= MAX_BLOCKS
      ensures k < |old(tcp.list.nodes)| ==>
        Valid(base) && Abs() == Step(old(Abs()), TcpCall(SocketSpec.CloseCall(k)))
      ensures k == |old(tcp.list.nodes)| ==>
        Abs() == old(Abs()).(pool := SocketSpec.Released(old(Abs()).pool, node.item.info))
    {
      hide Inv, BaseFor, Held, SocketSpec.Consistent, Routes.Consistent, NetPackets.Consistent,
        FragmentBuffers.Consistent, Items, Tcp.Infos, Unpack, SocketSpec.Close, SocketSpec.Released,
        PacketsOf;
      LayersValid(base);
      TcpStep(base, Abs(), SocketSpec.CloseCall(k));
      tcp.CloseConnection(node, k, BaseFor(base, Held(Abs()), TCP));
    }

    /** tcp_cleanup. */
    method CleanupTcp(ghost base: Bitmap)
      requires Valid(base)
      modifies tcp`count, tcp.list, tcp.list.nodes, pmm.memoryMap, pmm`used
      ensures Valid(base) && |old(Abs()).pool.v| <= MAX_BLOCKS
      ensures Abs() == Step(old(Abs()), TcpCall(SocketSpec.Cleanup))
    {
      hide Inv, BaseFor, Held, SocketSpec.Consistent, Routes.Consistent, NetPackets.Consistent,
        FragmentBuffers.Consistent, Items, Tcp.Infos, Unpack, SocketSpec.CloseAll, PacketsOf;
      LayersValid(base);
      TcpStep(base, Abs(), SocketSpec.Cleanup);
      tcp.Cleanup(BaseFor(base, Held(Abs()), TCP));
    }

    /** ipv4_add_route. */
    method AddRoute(c: Routes.Call, ghost base: Bitmap) returns (ok: bool)
      requires Valid(base) && c.AddRoute?
      modifies routes.list, routes.list.nodes, pmm.memoryMap, pmm`used
      ensures Valid(base) && |old(Abs()).pool.v| <= MAX_BLOCKS
      ensures Abs() == Step(old(Abs()), RouteCall(c))
    {
      hide Inv, BaseFor, Held, SocketSpec.Consistent, Routes.Consistent, NetPackets.Consistent,
        FragmentBuffers.Consistent, Items, Tcp.Infos, Unpack, Routes.Step, PacketsOf;
      LayersValid(base);
      RouteStep(base, Abs(), c);
      ok := routes.Add(c, BaseFor(base, Held(Abs()), ROUTES));
    }

    /** ipv4_remove_route. */
    method RemoveRoute(c: Routes.Call, ghost base: Bitmap) returns (ok: bool)
      requires Valid(base) && c.RemoveRoute?
      modifies routes.list, routes.list.nodes, pmm.memoryMap, pmm`used
      ensures Valid(base) && |old(Abs()).pool.v| <= MAX_BLOCKS
      ensures Abs() == Step(old(Abs()), RouteCall(c))
    {
      hide Inv, BaseFor, Held, SocketSpec.Consistent, Routes.Consistent, NetPackets.Consistent,
        FragmentBuffers.Consistent, Items, Tcp.Infos, Unpack, Routes.Step, PacketsOf;
      LayersValid(base);
      RouteStep(base, Abs(), c);
      ok := routes.Remove(c, BaseFor(base, Held(Abs()), ROUTES));
    }

    /** ipv4_flush_routes. */
    method FlushRoutes(ghost base: Bitmap)
      requires Valid(base)
      modifies routes.list, routes.list.nodes, pmm.memoryMap, pmm`used
      ensures Valid(base) && |old(Abs()).pool.v| <= MAX_BLOCKS
      ensures Abs() == Step(old(Abs()), RouteCall(Routes.Flush))
    {
      hide Inv, BaseFor, Held, SocketSpec.Consistent, Routes.Consistent, NetPackets.Consistent,
        FragmentBuffers.Consistent, Items, Tcp.Infos, Unpack, Routes.Step, PacketsOf;
      LayersValid(base);
      RouteStep(base, Abs(), Routes.Flush);
      routes.FlushAll(BaseFor(base, Held(Abs()), ROUTES));
    }

    /** net_alloc_packet. */
    method AllocPacket(size: u32, ghost base: Bitmap) returns (p: NetPackets.NetPacket?)
      requires Valid(base)
      modifies this`live, pmm.memoryMap, pmm`used
      ensures Valid(base) && |old(Abs()).pool.v| <= MAX_BLOCKS
      ensures Abs() == Step(old(Abs()), PacketCall(NetPackets.Alloc(size)))
      ensures if p == null then live == old(live) else fresh(p) && live == old(live) + [p]
    {
      hide Inv, BaseFor, Held, SocketSpec.Consistent, Routes.Consistent, NetPackets.Consistent,
        FragmentBuffers.Consistent, Items, Tcp.Infos, Unpack, NetPackets.Served,
        NetPackets.NewPacket, NetPackets.AfterHome, PmmPool.Step, PmmPool.Found;
      ghost var net := Abs();
      LayersValid(base);
      PacketStep(base, Abs(), NetPackets.Alloc(size));
      p := packets.AllocPacket(size);
      if p != null {
        live := live + [p];
      }
      assert PacketsOf(live) == Step(net, PacketCall(NetPackets.Alloc(size))).packets;
    }

    /** A protocol layer moves the data pointer or changes the length of its packet. */
    method SetFields(p: NetPackets.NetPacket, data: u32, length: u32, ghost k: nat, ghost base: Bitmap)
      requires Valid(base) && k < |live| && live[k] == p
      modifies p
      ensures Valid(base) && |old(Abs()).pool.v| <= MAX_BLOCKS
      ensures Abs() == Step(old(Abs()), PacketCall(NetPackets.Change(k, data, length)))
    {
      hide Inv, BaseFor, Held, SocketSpec.Consistent, Routes.Consistent, NetPackets.Consistent,
        FragmentBuffers.Consistent, Items, Tcp.Infos, Unpack;
      ghost var net := Abs();
      LayersValid(base);
      PacketStep(base, Abs(), NetPackets.Change(k, data, length));
      p.data := data;
      p.length := length;
      assert PacketsOf(live) == Step(net, PacketCall(NetPackets.Change(k, data, length))).packets;
    }

    /** net_free_packet: everything stays valid if and only if the fields of the packet name its own
        data block alone. */
    method FreePacket(p: NetPackets.NetPacket, ghost k: nat, ghost base: Bitmap)
      requires Valid(base) && k < |live| && live[k] == p
      modifies this`live, pmm.memoryMap, pmm`used
      ensures Formed() && pmm.Shape() && |old(Abs()).pool.v| <= MAX_BLOCKS && live == Without(old(live), k)
      ensures Abs() == Step(old(Abs()), PacketCall(NetPackets.Free(k)))
      ensures Valid(base) <==> NetPackets.NamesOwn(pmm.blocks, p.page / 4096, p.data, p.length)
    {
      hide Inv, BaseFor, Held, SocketSpec.Consistent, Routes.Consistent, NetPackets.Consistent,
        FragmentBuffers.Consistent, Items, Tcp.Infos, Unpack, NetPackets.Freed, NetPackets.NamesOwn,
        NetPackets.FreesUsed, Count;
      ghost var net := Abs();
      LayersValid(base);
      PacketStep(base, net, NetPackets.Free(k));
      packets.FreePacket(p);
      WithoutDistinct(live, k);
      live := Without(live, k);
      assert PacketsOf(live) == Step(net, PacketCall(NetPackets.Free(k))).packets;
      InvIsValid(base);
    }

    /** The allocator is valid wherever the invariant holds. */
    lemma {:induction false} InvIsValid(base: Bitmap)
      requires pmm.Shape()
      ensures Inv(base, Abs()) ==> pmm.Valid()
    {
      hide Inv, Unpack, Count, Items, Tcp.Infos;
      if Inv(base, Abs()) {
        InvPool(base, Abs());
      }
    }

    /** The buffer for the first fragment of a datagram. */
    method TakeBuffer(ghost base: Bitmap) returns (ok: bool)
      requires Valid(base)
      modifies table, pmm.memoryMap, pmm`used
      ensures Valid(base) && |old(Abs()).pool.v| <= MAX_BLOCKS
      ensures Abs() == Step(old(Abs()), BufferCall(FragmentBuffers.Take))
    {
      hide Inv, BaseFor, Held, SocketSpec.Consistent, Routes.Consistent, NetPackets.Consistent,
        FragmentBuffers.Consistent, Items, Tcp.Infos, Unpack, FragmentBuffers.Step, PacketsOf;
      LayersValid(base);
      BufferStep(base, Abs(), FragmentBuffers.Take);
      ok := table.TakeBuffer(BaseFor(base, Held(Abs()), BUFFERS));
    }

    /** The last fragment tells the length. */
    method SetLength(k: nat, total: u16, ghost base: Bitmap)
      requires Valid(base) && k < |table.buffers|
      modifies table
      ensures Valid(base) && |old(Abs()).pool.v| <= MAX_BLOCKS
      ensures Abs() == Step(old(Abs()), BufferCall(FragmentBuffers.SetTotal(k, total)))
    {
      hide Inv, BaseFor, Held, SocketSpec.Consistent, Routes.Consistent, NetPackets.Consistent,
        FragmentBuffers.Consistent, Items, Tcp.Infos, Unpack, FragmentBuffers.Step, PacketsOf;
      LayersValid(base);
      BufferStep(base, Abs(), FragmentBuffers.SetTotal(k, total));
      table.SetLength(k, total, BaseFor(base, Held(Abs()), BUFFERS));
    }

    /** A complete datagram gives its buffer back. */
    method ReleaseBuffer(k: nat, ghost base: Bitmap)
      requires Valid(base) && k < |table.buffers|
      modifies table, pmm.memoryMap, pmm`used
      ensures Valid(base) && |old(Abs()).pool.v| <= MAX_BLOCKS
      ensures Abs() == Step(old(Abs()), BufferCall(FragmentBuffers.Release(k)))
    {
      hide Inv, BaseFor, Held, SocketSpec.Consistent, Routes.Consistent, NetPackets.Consistent,
        FragmentBuffers.Consistent, Items, Tcp.Infos, Unpack, FragmentBuffers.Step, PacketsOf;
      LayersValid(base);
      BufferStep(base, Abs(), FragmentBuffers.Release(k));
      table.ReleaseBuffer(k, BaseFor(base, Held(Abs()), BUFFERS));
    }

    /** ipv4_cleanup: the routes go, and then the buffers. Everything stays valid if and only if every
        buffer in use has a length that names all of it. */
    method CleanupIpv4(ghost base: Bitmap)
      requires Valid(base)
      modifies routes.list, routes.list.nodes, table, pmm.memoryMap, pmm`used
      ensures Formed() && pmm.Shape() && |old(Abs()).pool.v| <= MAX_BLOCKS
      ensures var flushed := Step(old(Abs()), RouteCall(Routes.Flush));
        |flushed.pool.v| <= MAX_BLOCKS && Abs() == Step(flushed, BufferCall(FragmentBuffers.Cleanup))
      ensures Valid(base) <==> FragmentBuffers.Whole(old(table.buffers))
    {
      FlushRoutes(base);
      CleanupBuffers(base);
    }

    method CleanupBuffers(ghost base: Bitmap)
      requires Valid(base)
      modifies table, pmm.memoryMap, pmm`used
      ensures Formed() && pmm.Shape() && |old(Abs()).pool.v| <= MAX_BLOCKS
      ensures Abs() == Step(old(Abs()), BufferCall(FragmentBuffers.Cleanup))
      ensures Valid(base) <==> FragmentBuffers.Whole(old(table.buffers))
    {
      hide Inv, BaseFor, Held, SocketSpec.Consistent, Routes.Consistent, NetPackets.Consistent,
        FragmentBuffers.Consistent, Items, Tcp.Infos, Unpack, FragmentBuffers.Step, PacketsOf;
      LayersValid(base);
      BufferStep(base, Abs(), FragmentBuffers.Cleanup);
      table.CleanupBuffers(BaseFor(base, Held(Abs()), BUFFERS));
      InvIsValid(base);
    }
  }

  lemma {:induction false} InvPool(base: Bitmap, net: Net)
    requires Inv(base, net)
    ensures net.pool.used == Count(net.pool.v) && |net.pool.v| > 0 && net.pool.v[0]
  {
    hide BaseFor;
    SocketSpec.ConsistentPool(BaseFor(base, Held(net), UDP), Sockets(net), true);
  }
}
