/** udp_create_socket, udp_close_socket and udp_cleanup (net/udp.c): the linked list of sockets. */
module Udp {
  import opened Bits
  import opened Bitmaps
  import opened Ipv4
  import opened Lists
  import opened Pmm
  import opened Seqs
  import opened SocketSpec
  import PmmPool

  /** Local address and port. */
  datatype Key = Key(addr: Addr, port: u16)

  type Socket = Node<Holder<Key>>

  class UdpLayer {
    const list: List<Holder<Key>>  // udp_state.sockets
    var count: u32                 // udp_state.socket_count
    const pmm: Allocator

    constructor (pmm: Allocator)
      requires pmm.Valid()
      ensures this.pmm == pmm && fresh(list) && list.nodes == [] && Valid(pmm.View())
    {
      this.pmm := pmm;
      list := new List();
      count := 0;
      new;
      NoneConsistent<Key>(pmm.View(), true);
    }

    ghost function Abs(): State<Key>
      requires pmm.Shape()
      reads list, pmm, pmm.memoryMap
    {
      State(Items(list.nodes), pmm.Abs())
    }

    /** The counter is the length of the list; blocks and keys are as the specification says. */
    ghost predicate Valid(base: Bitmap)
      reads this, list, list.nodes, pmm, pmm.memoryMap
    {
      pmm.Valid() && list.Linked() && count == |list.nodes|
      && OneBufEach(Items(list.nodes)) && Consistent(base, Abs(), true)
    }

    /** The search for a socket bound to the same address and port. */
    method InUse(key: Key) returns (b: bool)
      requires list.Linked()
      ensures b <==> HasKey(Items(list.nodes), key)
    {
      ghost var s := Items(list.nodes);
      var prev: Node?<Holder<Key>>, curr := null, list.head;
      ghost var i := 0;
      while curr != null
        invariant list.At(i, prev, curr)
        invariant forall j | 0 <= j < i :: s[j].key != key
        decreases |list.nodes| - i
      {
        if curr.item.key.port == key.port && curr.item.key.addr == key.addr {
          assert s[i].key == key;
          return true;
        }
        ghost var before := prev;
        prev := curr;
        curr := list.Advance(curr, before, i);
        i := i + 1;
      }
      return false;
    }

    /** The allocations of udp_create_socket; a failed second one gives the first one back. */
    method Allocate(pages: u32, ghost key: Key, ghost s: State<Key>) returns (home: u32, buf: u32)
      requires pmm.Valid() && s.pool == pmm.Abs()
      modifies pmm.memoryMap, pmm`used
      ensures pmm.Valid() && |s.pool.v| <= MAX_BLOCKS
      ensures pmm.Abs() == Create(s, key, pages, 1).pool
      ensures Create(s, key, pages, 1).list ==
              (if home == 0 then s.list else [Holder(key, pages, home, [buf])] + s.list)
    {
      hide Search, Fill, Unpack, PmmPool.Found, Count, PmmPool.Step;
      buf := 0;
      home := pmm.AllocBlocks(1);
      if home == 0 {
        return;
      }
      PmmPool.FreeUndoesAlloc(s.pool, 1);
      TakeOne(pmm.Abs(), pages);
      buf := pmm.AllocBlocks(pages);
      if buf == 0 {
        pmm.FreeBlocks(home, 1);
        home := 0;
      }
    }

    /** udp_create_socket. */
    method CreateSocket(key: Key, bufferSize: u16, ghost base: Bitmap) returns (socket: Node?<Holder<Key>>)
      requires Valid(base)
      modifies this`count, list, pmm.memoryMap, pmm`used
      ensures Valid(base) && |old(Abs()).pool.v| <= MAX_BLOCKS
      ensures Abs() == Step(old(Abs()), CreateCall(key, Pages(bufferSize)), 1, true)
      ensures socket == null ==> Abs() == old(Abs())
      ensures socket != null ==> |list.nodes| == |old(list.nodes)| + 1 && list.nodes[0] == socket && fresh(socket)
      ensures forall n | n in list.nodes :: n in old(list.nodes) || n == socket
    {
      hide Consistent, Create, Unpack, Items, Count, HasKey;
      ghost var s := Abs();
      ConsistentSize(base, s, true);
      socket := null;
      if count >= 256 {
        return;
      }
      var taken := InUse(key);
      if taken {
        return;
      }
      var pages: u32 := (bufferSize + 4095) / 4096;
      CreateConsistent(base, s, true, key, pages, 1);
      var home, buf := Allocate(pages, key, s);
      if home == 0 {
        return;
      }
      socket := new Node(Holder(key, pages, home, [buf]));
      list.Push(socket);
      CreateGrows(s, key, pages, 1);
      ConsistentLimit(base, Abs(), true);
      count := count + 1;
    }

    /** Freeing the receive buffer and the structure. */
    method Release(h: Holder<Key>)
      requires pmm.Shape() && |h.bufs| == 1
      modifies pmm.memoryMap, pmm`used
      ensures pmm.Abs() == Released(old(pmm.Abs()), h)
    {
      hide Fill, Unpack, Count, PmmPool.Step;
      OneBuf(pmm.Abs(), h);
      pmm.FreeBlocks(h.bufs[0], h.pages);
      pmm.FreeBlocks(h.home, 1);
    }

    /** The walk over pointers to next fields until the socket is found, or to the end. */
    method FindPrevious(socket: Socket, ghost k: nat) returns (prev: Node?<Holder<Key>>, found: bool)
      requires list.Linked() && IndexOf(list.nodes, socket, k)
      ensures found <==> k < |list.nodes|
      ensures found ==> list.At(k, prev, socket)
    {
      var curr := list.head;
      prev := null;
      ghost var i := 0;
      while curr != null && curr != socket
        invariant list.At(i, prev, curr) && i <= k
        decreases |list.nodes| - i
      {
        ghost var before := prev;
        prev := curr;
        curr := list.Advance(curr, before, i);
        i := i + 1;
      }
      found := curr != null;
      if found {
        list.Position(i, k);
      }
    }

    /** udp_close_socket. k is the place of the socket in the list, or the length of the list. A socket
        that is not in the list is freed all the same. */
    method CloseSocket(socket: Socket, ghost k: nat, ghost base: Bitmap)
      requires Valid(base) && IndexOf(list.nodes, socket, k) && |socket.item.bufs| == 1
      modifies this`count, list, list.nodes, pmm.memoryMap, pmm`used
      ensures k < |old(list.nodes)| ==>
        Valid(base) && list.nodes == Without(old(list.nodes), k) && Abs() == Close(old(Abs()), k)
      ensures k == |old(list.nodes)| ==>
        && list.nodes == old(list.nodes) && list.Linked() && count == old(count)
        && pmm.Abs() == Released(old(pmm.Abs()), socket.item)
    {
      hide Consistent, Unpack, Items, Frames, PartsApart, Released, Count;
      ghost var s := Abs();
      var prev, found := FindPrevious(socket, k);
      if found {
        CloseConsistent(base, s, true, k);
        ConsistentPool(base, Close(s, k), true);
        list.Remove(socket, prev, k);
        ItemsWithout(old(list.nodes), k);
        count := count - 1;
      }
      Release(socket.item);
    }

    /** udp_cleanup. */
    method Cleanup(ghost base: Bitmap)
      requires Valid(base)
      modifies this`count, list, list.nodes, pmm.memoryMap, pmm`used
      ensures Valid(base) && list.nodes == [] && count == 0 && Abs() == CloseAll(old(Abs())) && pmm.View() == base
    {
      hide Consistent, Unpack, Items, Close;
      CloseAllRestores(base, Abs(), true);
      var socket := list.head;
      while socket != null
        invariant Valid(base) && socket == list.head
        invariant forall i | 0 <= i < |list.nodes| :: list.nodes[i] in old(list.nodes)
        decreases |list.nodes|
      {
        assert LinksTo(list.nodes[0], list.nodes, 0);
        var next := socket.next;
        CloseSocket(socket, 0, base);
        socket := next;
      }
      CloseAllRestores(base, Abs(), true);
    }
  }

  /** Every socket has one buffer, of at most 16 blocks. */
  ghost predicate OneBufEach(s: seq<Holder<Key>>) {
    forall i | 0 <= i < |s| :: |s[i].bufs| == 1 && s[i].pages <= 16
  }

  lemma {:induction false} OneBuf(p: PmmPool.Pool, h: Holder<Key>)
    requires |h.bufs| == 1
    ensures Give(p, h.bufs, h.pages) == PmmPool.Step(p, PmmPool.FreeMany(h.bufs[0], h.pages))
  {
    assert h.bufs[1..] == [];
  }
}
