/** UDP sockets, TCP connections, routes, packets and reassembly buffers on one allocator (net/udp.c,
    net/tcp.c, net/ipv4.c, net/net.c over mem/pmm.c): any sequence of calls, interleaved as they come. */
module NetRuns {
  import opened Bitmaps
  import opened Holdings
  import opened Pmm
  import opened Seqs
  import FragmentBuffers
  import NetPackets
  import PmmPool
  import Routes
  import RouteSpec
  import SocketSpec
  import TcpConn
  import Udp

  datatype Net = Net(
    udp: seq<SocketSpec.Holder<Udp.Key>>,
    tcp: seq<SocketSpec.Holder<TcpConn.Key>>,
    routes: seq<RouteSpec.Route>,
    packets: seq<NetPackets.Packet>,
    buffers: seq<FragmentBuffers.Buffer>,
    pool: PmmPool.Pool)

  function Sockets(net: Net): SocketSpec.State<Udp.Key> {
    SocketSpec.State(net.udp, net.pool)
  }

  function Connections(net: Net): SocketSpec.State<TcpConn.Key> {
    SocketSpec.State(net.tcp, net.pool)
  }

  function Table(net: Net): Routes.Table {
    Routes.Table(net.routes, net.pool)
  }

  function Stock(net: Net): NetPackets.Stock {
    NetPackets.Stock(net.packets, net.pool)
  }

  function Shelf(net: Net): FragmentBuffers.Shelf {
    FragmentBuffers.Shelf(net.buffers, net.pool)
  }

  /** The blocks of every socket, connection, route, packet and reassembly buffer. */
  function Held(net: Net): (hs: seq<seq<set<nat>>>)
    ensures |hs| == CLIENTS
  {
    [SocketSpec.FramesOf(net.udp), SocketSpec.FramesOf(net.tcp), Routes.FramesOf(net.routes),
     NetPackets.FramesOf(net.packets), FragmentBuffers.FramesOf(net.buffers)]
  }

  const UDP: nat := 0
  const TCP: nat := 1
  const ROUTES: nat := 2
  const PACKETS: nat := 3
  const BUFFERS: nat := 4
  const CLIENTS: nat := 5

  /** Each client's own invariant, on top of the blocks of the others. */
  ghost predicate Inv(base: Bitmap, net: Net) {
    var hs := Held(net);
    && 0 < |base| <= MAX_BLOCKS && base[0]
    && SocketSpec.Consistent(BaseFor(base, hs, UDP), Sockets(net), true)
    && SocketSpec.Consistent(BaseFor(base, hs, TCP), Connections(net), false)
    && Routes.Consistent(BaseFor(base, hs, ROUTES), Table(net))
    && NetPackets.Consistent(BaseFor(base, hs, PACKETS), Stock(net))
    && FragmentBuffers.Consistent(BaseFor(base, hs, BUFFERS), Shelf(net))
  }

  lemma {:induction false} InvConserves(base: Bitmap, net: Net)
    requires Inv(base, net)
    ensures AllConserved(base, net.pool.v, Held(net)) && |net.pool.v| == |base| <= MAX_BLOCKS
    ensures PmmPool.Agrees(net.pool)
  {
    hide Conserved, BaseFor, SocketSpec.FramesOf, Routes.FramesOf, NetPackets.FramesOf,
      FragmentBuffers.FramesOf;
    SocketSpec.ConsistentSize(BaseFor(base, Held(net), UDP), Sockets(net), true);
    BaseSize(base, Held(net), UDP);
  }

  lemma {:induction false} BaseSize(base: Bitmap, hs: seq<seq<set<nat>>>, c: nat)
    requires c < |hs|
    ensures |BaseFor(base, hs, c)| == |base| && (0 < |base| && base[0] ==> BaseFor(base, hs, c)[0])
  {}

  /** What the clients keep besides their holdings: limits, distinct keys, order, whole buffers, and the
      allocator's counter. */
  ghost predicate OwnRules(net: Net) {
    && |net.udp| <= SocketSpec.LIMIT && |net.tcp| <= SocketSpec.LIMIT && SocketSpec.KeysDistinct(net.udp)
    && (forall i | 0 <= i < |net.udp| :: SocketSpec.PartsApart(net.udp[i]))
    && (forall i | 0 <= i < |net.tcp| :: SocketSpec.PartsApart(net.tcp[i]))
    && RouteSpec.Sorted(net.routes)
    && (forall i | 0 <= i < |net.packets| :: NetPackets.Aligned(net.packets[i]))
    && |net.buffers| <= FragmentBuffers.BUFFERS && PmmPool.Agrees(net.pool)
  }

  lemma {:induction false} InvIs(base: Bitmap, net: Net)
    requires 0 < |base| <= MAX_BLOCKS && base[0]
    ensures Inv(base, net) <==> OwnRules(net) && AllConserved(base, net.pool.v, Held(net))
  {
    hide Conserved, BaseFor, SocketSpec.FramesOf, Routes.FramesOf, NetPackets.FramesOf, FragmentBuffers.FramesOf,
      PmmPool.Agrees, RouteSpec.Sorted, SocketSpec.KeysDistinct, SocketSpec.PartsApart, NetPackets.Aligned;
    var hs := Held(net);
    BaseSize(base, hs, UDP);
    BaseSize(base, hs, TCP);
    BaseSize(base, hs, ROUTES);
    BaseSize(base, hs, PACKETS);
    BaseSize(base, hs, BUFFERS);
    if AllConserved(base, net.pool.v, hs) {
      assert Conserved(BaseFor(base, hs, UDP), net.pool.v, hs[UDP]);
      assert Conserved(BaseFor(base, hs, TCP), net.pool.v, hs[TCP]);
      assert Conserved(BaseFor(base, hs, ROUTES), net.pool.v, hs[ROUTES]);
      assert Conserved(BaseFor(base, hs, PACKETS), net.pool.v, hs[PACKETS]);
      assert Conserved(BaseFor(base, hs, BUFFERS), net.pool.v, hs[BUFFERS]);
    }
  }

  // ---------------------------------------------------------------- calls

  datatype Call =
    | UdpCall(u: SocketSpec.Call<Udp.Key>)
    | TcpCall(t: SocketSpec.Call<TcpConn.Key>)
    | RouteCall(r: Routes.Call)
    | PacketCall(p: NetPackets.Call)
    | BufferCall(b: FragmentBuffers.Call)

  ghost function Step(net: Net, c: Call): (net': Net)
    requires |net.pool.v| <= MAX_BLOCKS
  {
    match c
    case UdpCall(u) => var s := SocketSpec.Step(Sockets(net), u, 1, true); net.(udp := s.list, pool := s.pool)
    case TcpCall(t) => var s := SocketSpec.Step(Connections(net), t, 2, false); net.(tcp := s.list, pool := s.pool)
    case RouteCall(r) => var s := Routes.Step(Table(net), r); net.(routes := s.routes, pool := s.pool)
    case PacketCall(p) => var s := NetPackets.Step(Stock(net), p); net.(packets := s.packets, pool := s.pool)
    case BufferCall(b) => var s := FragmentBuffers.Step(Shelf(net), b); net.(buffers := s.buffers, pool := s.pool)
  }

  /** A freed packet's fields name its own data block alone, and ipv4_cleanup finds every reassembly
      buffer with a length that names all of it. */
  ghost predicate Enabled(net: Net, c: Call) {
    match c
    case PacketCall(p) => NetPackets.FreesOwn(Stock(net), p)
    case BufferCall(b) => FragmentBuffers.CleansWhole(Shelf(net), b)
    case _ => true
  }

  lemma {:induction false} RouteStepConsistent(base: Bitmap, t: Routes.Table, c: Routes.Call)
    requires Routes.Consistent(base, t) && |t.pool.v| <= MAX_BLOCKS
    ensures Routes.Consistent(base, Routes.Step(t, c))
  {
    match c
    case AddRoute(_, _, _, _, _) => Routes.AddConsistent(base, t, c);
    case RemoveRoute(network, netmask) =>
      var k := RouteSpec.First(t.routes, RouteSpec.Named(network, netmask), 0);
      if k < |t.routes| {
        Routes.DropConsistent(base, t, k);
      }
    case Flush =>
      Routes.FlushConsistent(base, t);
      NoneConserved(base);
  }

  /** A call through one client keeps its books; then it keeps everybody's. */
  lemma {:induction false} UdpStep(base: Bitmap, net: Net, u: SocketSpec.Call<Udp.Key>)
    requires Inv(base, net) && |net.pool.v| <= MAX_BLOCKS
    ensures Inv(base, Step(net, UdpCall(u)))
  {
    hide Conserved, BaseFor, SocketSpec.FramesOf, Routes.FramesOf, NetPackets.FramesOf,
      FragmentBuffers.FramesOf, SocketSpec.Step, Inv;
    var net', hs := Step(net, UdpCall(u)), Held(net);
    Unfold(base, net);
    SocketSpec.StepConsistent(BaseFor(base, hs, UDP), Sockets(net), u, 1, true);
    ClientStep(base, net.pool.v, hs, UDP, net'.pool.v, SocketSpec.FramesOf(net'.udp));
    assert Held(net') == hs[UDP := SocketSpec.FramesOf(net'.udp)];
    InvIs(base, net');
  }

  lemma {:induction false} TcpStep(base: Bitmap, net: Net, t: SocketSpec.Call<TcpConn.Key>)
    requires Inv(base, net) && |net.pool.v| <= MAX_BLOCKS
    ensures Inv(base, Step(net, TcpCall(t)))
  {
    hide Conserved, BaseFor, SocketSpec.FramesOf, Routes.FramesOf, NetPackets.FramesOf,
      FragmentBuffers.FramesOf, SocketSpec.Step, Inv;
    var net', hs := Step(net, TcpCall(t)), Held(net);
    Unfold(base, net);
    SocketSpec.StepConsistent(BaseFor(base, hs, TCP), Connections(net), t, 2, false);
    ClientStep(base, net.pool.v, hs, TCP, net'.pool.v, SocketSpec.FramesOf(net'.tcp));
    assert Held(net') == hs[TCP := SocketSpec.FramesOf(net'.tcp)];
    InvIs(base, net');
  }

  lemma {:induction false} RouteStep(base: Bitmap, net: Net, r: Routes.Call)
    requires Inv(base, net) && |net.pool.v| <= MAX_BLOCKS
    ensures Inv(base, Step(net, RouteCall(r)))
  {
    hide Conserved, BaseFor, SocketSpec.FramesOf, Routes.FramesOf, NetPackets.FramesOf,
      FragmentBuffers.FramesOf, Routes.Step, Inv;
    var net', hs := Step(net, RouteCall(r)), Held(net);
    Unfold(base, net);
    RouteStepConsistent(BaseFor(base, hs, ROUTES), Table(net), r);
    ClientStep(base, net.pool.v, hs, ROUTES, net'.pool.v, Routes.FramesOf(net'.routes));
    assert Held(net') == hs[ROUTES := Routes.FramesOf(net'.routes)];
    InvIs(base, net');
  }

  lemma {:induction false} PacketStep(base: Bitmap, net: Net, p: NetPackets.Call)
    requires Inv(base, net) && |net.pool.v| <= MAX_BLOCKS
    ensures Inv(base, Step(net, PacketCall(p))) <==> NetPackets.FreesOwn(Stock(net), p)
  {
    hide Conserved, BaseFor, SocketSpec.FramesOf, Routes.FramesOf, NetPackets.FramesOf,
      FragmentBuffers.FramesOf, NetPackets.Step, Inv, NetPackets.FreesOwn;
    var net', hs := Step(net, PacketCall(p)), Held(net);
    Unfold(base, net);
    NetPackets.StepConsistentExactly(BaseFor(base, hs, PACKETS), Stock(net), p);
    assert Held(net') == hs[PACKETS := NetPackets.FramesOf(net'.packets)];
    OwnBase(base, hs, PACKETS, NetPackets.FramesOf(net'.packets));
    if NetPackets.FreesOwn(Stock(net), p) {
      ClientStep(base, net.pool.v, hs, PACKETS, net'.pool.v, NetPackets.FramesOf(net'.packets));
      InvIs(base, net');
    } else if Inv(base, net') {
      Unfold(base, net');
    }
  }

  lemma {:induction false} BufferStep(base: Bitmap, net: Net, b: FragmentBuffers.Call)
    requires Inv(base, net) && |net.pool.v| <= MAX_BLOCKS
    ensures Inv(base, Step(net, BufferCall(b))) <==> FragmentBuffers.CleansWhole(Shelf(net), b)
  {
    hide Conserved, BaseFor, SocketSpec.FramesOf, Routes.FramesOf, NetPackets.FramesOf,
      FragmentBuffers.FramesOf, FragmentBuffers.Step, Inv, FragmentBuffers.CleansWhole;
    var net', hs := Step(net, BufferCall(b)), Held(net);
    Unfold(base, net);
    FragmentBuffers.StepConsistentExactly(BaseFor(base, hs, BUFFERS), Shelf(net), b);
    assert Held(net') == hs[BUFFERS := FragmentBuffers.FramesOf(net'.buffers)];
    OwnBase(base, hs, BUFFERS, FragmentBuffers.FramesOf(net'.buffers));
    if FragmentBuffers.CleansWhole(Shelf(net), b) {
      ClientStep(base, net.pool.v, hs, BUFFERS, net'.pool.v, FragmentBuffers.FramesOf(net'.buffers));
      InvIs(base, net');
    } else if Inv(base, net') {
      Unfold(base, net');
    }
  }

  lemma {:induction false} Unfold(base: Bitmap, net: Net)
    requires Inv(base, net)
    ensures OwnRules(net) && AllConserved(base, net.pool.v, Held(net)) && 0 < |base| <= MAX_BLOCKS && base[0]
    ensures SocketSpec.Consistent(BaseFor(base, Held(net), UDP), Sockets(net), true)
    ensures SocketSpec.Consistent(BaseFor(base, Held(net), TCP), Connections(net), false)
    ensures Routes.Consistent(BaseFor(base, Held(net), ROUTES), Table(net))
    ensures NetPackets.Consistent(BaseFor(base, Held(net), PACKETS), Stock(net))
    ensures FragmentBuffers.Consistent(BaseFor(base, Held(net), BUFFERS), Shelf(net))
  {
    hide OwnRules, AllConserved, Conserved, BaseFor, Held;
    InvIs(base, net);
  }

  /** One call of any client: everybody's holdings and the counter stay right, unless it frees a packet
      whose fields do not name its own block, or cleans up a buffer whose length does not name it. */
  lemma {:induction false} StepKeepsExactly(base: Bitmap, net: Net, c: Call)
    requires Inv(base, net) && |net.pool.v| <= MAX_BLOCKS
    ensures Inv(base, Step(net, c)) <==> Enabled(net, c)
  {
    hide Inv, Step, NetPackets.FreesOwn, FragmentBuffers.CleansWhole;
    match c
    case UdpCall(u) => UdpStep(base, net, u);
    case TcpCall(t) => TcpStep(base, net, t);
    case RouteCall(r) => RouteStep(base, net, r);
    case PacketCall(p) => PacketStep(base, net, p);
    case BufferCall(b) => BufferStep(base, net, b);
  }

  // ---------------------------------------------------------------- runs

  lemma {:induction false} StepSize(net: Net, c: Call)
    requires |net.pool.v| <= MAX_BLOCKS
    ensures |Step(net, c).pool.v| == |net.pool.v|
  {
    hide SocketSpec.Step, NetPackets.Step, FragmentBuffers.Step, PmmPool.Step;
  }

  ghost function Run(base: Bitmap, calls: seq<Call>): (net: Net)
    requires |base| <= MAX_BLOCKS
    ensures |net.pool.v| == |base|
  {
    if calls == [] then Net([], [], [], [], [], PmmPool.PoolOf(base))
    else
      var net := Run(base, calls[..|calls| - 1]);
      StepSize(net, calls[|calls| - 1]);
      Step(net, calls[|calls| - 1])
  }

  ghost predicate AllEnabled(base: Bitmap, calls: seq<Call>)
    requires |base| <= MAX_BLOCKS
  {
    forall i | 0 <= i < |calls| :: Enabled(Run(base, calls[..i]), calls[i])
  }

  ghost predicate AlwaysInv(base: Bitmap, calls: seq<Call>)
    requires |base| <= MAX_BLOCKS
  {
    forall i | 0 <= i <= |calls| :: Inv(base, Run(base, calls[..i]))
  }

  lemma {:induction false} StartInv(base: Bitmap)
    requires 0 < |base| <= MAX_BLOCKS && base[0]
    ensures Inv(base, Net([], [], [], [], [], PmmPool.PoolOf(base)))
  {
    var net := Net([], [], [], [], [], PmmPool.PoolOf(base));
    assert Held(net) == [[], [], [], [], []];
    NothingHeld(base);
    InvIs(base, net);
  }

  lemma {:induction false} NothingHeld(base: Bitmap)
    ensures AllConserved(base, base, [[], [], [], [], []])
  {
    forall c | 0 <= c < CLIENTS
      ensures Conserved(BaseFor(base, [[], [], [], [], []], c), base, [])
    {
      NobodyElse(c);
      assert BaseFor(base, [[], [], [], [], []], c) == base;
      NoneConserved(base);
    }
  }

  lemma {:induction false} NobodyElse(c: nat)
    requires c < CLIENTS
    ensures HeldByOthers([[], [], [], [], []], c) == {}
  {
    var hs: seq<seq<set<nat>>> := [[], [], [], [], []];
    forall i
      ensures i !in HeldByOthers(hs, c)
    {
      if i >= 0 {
        OthersAre(hs, c, i);
      }
    }
  }

  lemma {:induction false} AlwaysInvSnoc(base: Bitmap, calls: seq<Call>)
    requires |base| <= MAX_BLOCKS && calls != []
    ensures AlwaysInv(base, calls) <==> AlwaysInv(base, calls[..|calls| - 1]) && Inv(base, Run(base, calls))
  {
    hide Inv, Run;
    var n := |calls| - 1;
    assert forall i | 0 <= i <= n :: calls[..n][..i] == calls[..i];
    assert calls[..n + 1] == calls;
  }

  lemma {:induction false} AllEnabledSnoc(base: Bitmap, calls: seq<Call>)
    requires |base| <= MAX_BLOCKS && calls != []
    ensures AllEnabled(base, calls) <==>
      AllEnabled(base, calls[..|calls| - 1]) && Enabled(Run(base, calls[..|calls| - 1]), calls[|calls| - 1])
  {
    hide Enabled, Run;
    var n := |calls| - 1;
    assert forall i | 0 <= i <= n :: calls[..n][..i] == calls[..i];
  }

  /** Over every interleaving of UDP, TCP, route, packet and reassembly buffer calls on one allocator,
      with any number of live objects: all holdings and the allocator's counter are right after every
      call if and only if every packet is freed while its fields name its own block alone, and every
      buffer is cleaned up while its length names all of it. */
  lemma {:induction false} RunKeepsExactly(base: Bitmap, calls: seq<Call>)
    requires 0 < |base| <= MAX_BLOCKS && base[0]
    ensures AlwaysInv(base, calls) <==> AllEnabled(base, calls)
    ensures AlwaysInv(base, calls) ==> Inv(base, Run(base, calls))
    decreases |calls|
  {
    hide Inv, Enabled, Step;
    if calls == [] {
      StartInv(base);
    } else {
      hide AlwaysInv, AllEnabled;
      var n := |calls| - 1;
      RunKeepsExactly(base, calls[..n]);
      AlwaysInvSnoc(base, calls);
      AllEnabledSnoc(base, calls);
      if Inv(base, Run(base, calls[..n])) {
        StepKeepsExactly(base, Run(base, calls[..n]), calls[n]);
      }
    }
  }

  /** What the invariant means: every block in use beyond `base` belongs to exactly one socket,
      connection, route, packet or buffer, and the counter is the number of blocks in use; so once all
      of them are gone, the allocator is as it was. */
  lemma {:induction false} OneOwnerEach(base: Bitmap, net: Net)
    requires Inv(base, net)
    ensures net.pool.v == Mark(base, AllHeld(Held(net)), true) && AllAre(base, AllHeld(Held(net)), false)
    ensures net.pool.used == Count(net.pool.v)
    ensures forall c | 0 <= c < CLIENTS :: PairwiseDisjoint(Held(net)[c])
    ensures forall c, d | 0 <= c < CLIENTS && 0 <= d < CLIENTS && c != d :: Union(Held(net)[c]) !! Union(Held(net)[d])
    ensures net.udp == [] && net.tcp == [] && net.routes == [] && net.packets == [] && net.buffers == [] ==>
      |base| <= MAX_BLOCKS && net.pool == PmmPool.PoolOf(base)
  {
    hide Inv, Held, AllConserved, Union, AllHeld, AllAre;
    InvConserves(base, net);
    AllConservedMeans(base, net.pool.v, Held(net));
    if net.udp == [] && net.tcp == [] && net.routes == [] && net.packets == [] && net.buffers == [] {
      NoneLeft(net);
      NobodyHolds();
      assert net.pool.v == base;
    }
  }

  lemma {:induction false} NoneLeft(net: Net)
    requires net.udp == [] && net.tcp == [] && net.routes == [] && net.packets == [] && net.buffers == []
    ensures Held(net) == [[], [], [], [], []]
  {}

  lemma {:induction false} NobodyHolds()
    ensures AllHeld([[], [], [], [], []]) == {}
  {
    NobodyElse(0);
    var hs: seq<seq<set<nat>>> := [[], [], [], [], []];
    assert hs[0 := []] == hs;
  }

  /** The call that ends an object, and the blocks of that object. */
  ghost predicate Ends(net: Net, c: Call, client: nat, k: nat) {
    match c
    case UdpCall(u) => client == UDP && k < |net.udp| && u == SocketSpec.CloseCall(k)
    case TcpCall(t) => client == TCP && k < |net.tcp| && t == SocketSpec.CloseCall(k)
    case RouteCall(r) =>
      client == ROUTES && k < |net.routes| && r.RemoveRoute?
      && k == RouteSpec.First(net.routes, RouteSpec.Named(r.network, r.netmask), 0)
    case PacketCall(p) => client == PACKETS && k < |net.packets| && p == NetPackets.Free(k)
    case BufferCall(b) => client == BUFFERS && k < |net.buffers| && b == FragmentBuffers.Release(k)
  }

  /** The state after the end of an object: its blocks are free, the others' are as they were. */
  ghost predicate Returned(net: Net, net': Net, client: nat, k: nat) {
    && client < CLIENTS && k < |Held(net)[client]|
    && net'.pool.v == Mark(net.pool.v, Held(net)[client][k], false)
    && Held(net') == Held(net)[client := Without(Held(net)[client], k)]
  }

  lemma {:induction false} UdpEnds(net: Net, k: nat)
    requires k < |net.udp| && |net.pool.v| <= MAX_BLOCKS
    ensures Returned(net, Step(net, UdpCall(SocketSpec.CloseCall(k))), UDP, k)
  {
    hide Mark, Fill, SocketSpec.FramesOf, SocketSpec.Frames, Routes.FramesOf, NetPackets.FramesOf,
      FragmentBuffers.FramesOf;
    SocketSpec.CloseMarks(Sockets(net), k);
    SocketSpec.FramesWithout(net.udp, k);
  }

  lemma {:induction false} TcpEnds(net: Net, k: nat)
    requires k < |net.tcp| && |net.pool.v| <= MAX_BLOCKS
    ensures Returned(net, Step(net, TcpCall(SocketSpec.CloseCall(k))), TCP, k)
  {
    hide Mark, Fill, SocketSpec.FramesOf, SocketSpec.Frames, Routes.FramesOf, NetPackets.FramesOf,
      FragmentBuffers.FramesOf;
    SocketSpec.CloseMarks(Connections(net), k);
    SocketSpec.FramesWithout(net.tcp, k);
  }

  lemma {:induction false} RouteEnds(net: Net, r: Routes.Call)
    requires r.RemoveRoute? && |net.pool.v| <= MAX_BLOCKS
    ensures var k := RouteSpec.First(net.routes, RouteSpec.Named(r.network, r.netmask), 0);
      k < |net.routes| ==> Returned(net, Step(net, RouteCall(r)), ROUTES, k)
  {
    hide Mark, Fill, SocketSpec.FramesOf, Routes.FramesOf, NetPackets.FramesOf, RouteSpec.First;
    var k := RouteSpec.First(net.routes, RouteSpec.Named(r.network, r.netmask), 0);
    if k < |net.routes| {
      FillIsMark(net.pool.v, net.routes[k].home / 4096, 1, false);
      Routes.FramesWithout(net.routes, k);
    }
  }

  lemma {:induction false} PacketEnds(base: Bitmap, net: Net, k: nat)
    requires Inv(base, net) && |net.pool.v| <= MAX_BLOCKS && k < |net.packets|
    requires NetPackets.FreesOwn(Stock(net), NetPackets.Free(k))
    ensures Returned(net, Step(net, PacketCall(NetPackets.Free(k))), PACKETS, k)
  {
    hide Mark, Fill, SocketSpec.FramesOf, Routes.FramesOf, NetPackets.FramesOf, NetPackets.Freed, NetPackets.FreesOwn,
      FragmentBuffers.FramesOf, FragmentBuffers.Consistent,
      Inv, OwnRules, AllConserved, NetPackets.Consistent, SocketSpec.Consistent, Routes.Consistent, BaseFor;
    Unfold(base, net);
    NetPackets.FreeConsistentExactly(BaseFor(base, Held(net), PACKETS), Stock(net), k);
    NetPackets.FramesWithout(net.packets, k);
  }

  lemma {:induction false} BufferEnds(base: Bitmap, net: Net, k: nat)
    requires Inv(base, net) && |net.pool.v| <= MAX_BLOCKS && k < |net.buffers|
    ensures Returned(net, Step(net, BufferCall(FragmentBuffers.Release(k))), BUFFERS, k)
  {
    hide Mark, Fill, SocketSpec.FramesOf, Routes.FramesOf, NetPackets.FramesOf, FragmentBuffers.FramesOf,
      FragmentBuffers.Frames, Inv, OwnRules, AllConserved, NetPackets.Consistent, SocketSpec.Consistent,
      Routes.Consistent, FragmentBuffers.Consistent, BaseFor, PmmPool.Step;
    Unfold(base, net);
    FragmentBuffers.ReleaseConsistent(BaseFor(base, Held(net), BUFFERS), Shelf(net), k);
    FragmentBuffers.FramesWithout(net.buffers, k);
  }

  /** Ending an object gives back exactly its own blocks, and no other object notices. */
  lemma {:induction false} EndReturnsOwn(base: Bitmap, net: Net, c: Call, client: nat, k: nat)
    requires Inv(base, net) && |net.pool.v| <= MAX_BLOCKS && Enabled(net, c) && Ends(net, c, client, k)
    ensures Returned(net, Step(net, c), client, k)
  {
    hide Inv, Returned, Step, NetPackets.FreesOwn, RouteSpec.First;
    match c
    case UdpCall(_) => UdpEnds(net, k);
    case TcpCall(_) => TcpEnds(net, k);
    case RouteCall(r) => RouteEnds(net, r);
    case PacketCall(_) => PacketEnds(base, net, k);
    case BufferCall(_) => BufferEnds(base, net, k);
  }
}
