/** ipv4_add_route, ipv4_remove_route, ipv4_find_route and ipv4_flush_routes (net/ipv4.c) on the
    linked list of routes, each in a page of its own. */
module Routes {
  import opened Bits
  import opened Bitmaps
  import opened Holdings
  import opened Ipv4
  import opened Lists
  import opened Pmm
  import opened RouteSpec
  import opened Seqs
  import PmmPool

  /** The routes in list order, and the allocator: bitmap and counter. */
  datatype Table = Table(routes: seq<Route>, pool: PmmPool.Pool)

  function Frames(r: Route): set<nat> {
    Blocks(r.home / 4096, 1)
  }

  function FramesOf(s: seq<Route>): (fs: seq<set<nat>>)
    ensures |fs| == |s| && forall i | 0 <= i < |s| :: fs[i] == Frames(s[i])
  {
    if s == [] then [] else [Frames(s[0])] + FramesOf(s[1..])
  }

  datatype Call =
    | AddRoute(network: Addr, netmask: Addr, gateway: Addr, iface: nat, metric: u32)
    | RemoveRoute(network: Addr, netmask: Addr)
    | Flush

  /** The page a new route would get, or -1. */
  function Page(p: PmmPool.Pool): int {
    PmmPool.Found(p, 1)
  }

  function Entry(c: Call, page: nat): Route
    requires c.AddRoute? && page < MAX_BLOCKS
  {
    Route(c.network, c.netmask, c.gateway, c.iface, c.metric, page * 4096)
  }

  function Dropped(t: Table, k: nat): Table
    requires k < |t.routes|
  {
    Table(Without(t.routes, k), PmmPool.Step(t.pool, PmmPool.FreeMany(t.routes[k].home, 1)))
  }

  function Step(t: Table, c: Call): Table
    requires |t.pool.v| <= MAX_BLOCKS
  {
    match c
    case AddRoute(_, _, _, _, _) =>
      var page := Page(t.pool);
      if page == -1 then t
      else Table(Add(t.routes, Entry(c, page)), PmmPool.Step(t.pool, PmmPool.AllocMany(1)))
    case RemoveRoute(network, netmask) =>
      var k := First(t.routes, Named(network, netmask), 0);
      if k == |t.routes| then t else Dropped(t, k)
    case Flush => Table([], Released(t.pool, t.routes))
  }

  /** The allocator after the pages of the routes are freed, first to last. */
  function Released(p: PmmPool.Pool, s: seq<Route>): (r: PmmPool.Pool)
    ensures |r.v| == |p.v|
    decreases |s|
  {
    if s == [] then p else Released(PmmPool.Step(p, PmmPool.FreeMany(s[0].home, 1)), s[1..])
  }

  /** A new route carries the values it was added with. */
  lemma {:induction false} AddedFields(t: Table, c: Call)
    requires |t.pool.v| <= MAX_BLOCKS && c.AddRoute?
    ensures Page(t.pool) == -1 ==> Step(t, c) == t
    ensures Page(t.pool) != -1 ==>
      var r := Route(c.network, c.netmask, c.gateway, c.iface, c.metric, Page(t.pool) * 4096);
      exists p :: 0 <= p <= |t.routes| && Step(t, c).routes == t.routes[..p] + [r] + t.routes[p..]
  {
    hide Position;
    if Page(t.pool) != -1 {
      var p := Position(t.routes, c.metric);
      assert Step(t, c).routes == t.routes[..p] + [Entry(c, Page(t.pool))] + t.routes[p..];
    }
  }

  /** The table is consistent with an allocator of which `base` is used by everybody else, and whose
      counter is right. */
  ghost predicate Consistent(base: Bitmap, t: Table) {
    && 0 < |base| <= MAX_BLOCKS && base[0]
    && Sorted(t.routes) && Conserved(base, t.pool.v, FramesOf(t.routes)) && PmmPool.Agrees(t.pool)
  }

  lemma {:induction false} ConsistentSize(base: Bitmap, t: Table)
    requires Consistent(base, t)
    ensures |t.pool.v| == |base| <= MAX_BLOCKS && PmmPool.Agrees(t.pool) && t.pool.v[0]
  {}

  lemma {:induction false} FramesInserted(s: seq<Route>, p: nat, r: Route)
    requires p <= |s|
    ensures FramesOf(s[..p] + [r] + s[p..]) == FramesOf(s)[..p] + [Frames(r)] + FramesOf(s)[p..]
  {
    hide FramesOf, Frames;
  }

  lemma {:induction false} FramesWithout(s: seq<Route>, k: nat)
    requires k < |s|
    ensures FramesOf(Without(s, k)) == Without(FramesOf(s), k)
  {}

  lemma {:induction false} AddConsistent(base: Bitmap, t: Table, c: Call)
    requires Consistent(base, t) && |t.pool.v| <= MAX_BLOCKS && c.AddRoute?
    ensures Consistent(base, Step(t, c))
  {
    hide Conserved, Position, PmmPool.Found, Hit, Sorted, PmmPool.Agrees;
    var page := Page(t.pool);
    if page != -1 {
      FoundInside(t.pool, 1);
      var r := Entry(c, page);
      BlockAddress(page);
      TakenMarks(t.pool, 1);
      FramesInserted(t.routes, Position(t.routes, r.metric), r);
      GrantConserved(base, t.pool.v, FramesOf(t.routes), Position(t.routes, r.metric), Blocks(page, 1));
      AddKeepsSorted(t.routes, r);
    }
  }

  lemma {:induction false} DropConsistent(base: Bitmap, t: Table, k: nat)
    requires Consistent(base, t) && k < |t.routes|
    ensures Consistent(base, Dropped(t, k))
    ensures Dropped(t, k).pool.v == Mark(t.pool.v, Frames(t.routes[k]), false)
    ensures forall i | i in Frames(t.routes[k]) :: 0 < i < |t.pool.v| && t.pool.v[i]
  {
    hide Conserved, Sorted, PmmPool.Step, PmmPool.Agrees;
    ConsistentSize(base, t);
    GivenMarks(t.pool, t.routes[k].home, 1);
    FramesWithout(t.routes, k);
    ReturnConserved(base, t.pool.v, FramesOf(t.routes), k);
    HeldIsUsed(base, t.pool.v, FramesOf(t.routes), k);
    WithoutKeepsSorted(t.routes, k);
  }

  lemma {:induction false} FlushConsistent(base: Bitmap, t: Table)
    requires Consistent(base, t)
    ensures |base| <= MAX_BLOCKS && Released(t.pool, t.routes) == PmmPool.PoolOf(base)
    decreases |t.routes|
  {
    if t.routes == [] {
      assert t.pool.v == base;
    } else {
      ConsistentSize(base, t);
      hide Consistent;
      DropConsistent(base, t, 0);
      assert Without(t.routes, 0) == t.routes[1..];
      FlushConsistent(base, Dropped(t, 0));
    }
  }

  lemma {:induction false} NoRoutes(p: PmmPool.Pool)
    ensures Released(p, []) == p
  {}

  class RouteTable {
    const list: List<Route>   // ipv4_state.routes
    const pmm: Allocator

    constructor (pmm: Allocator)
      ensures this.pmm == pmm && list.Linked() && list.nodes == []
      ensures fresh(list)
    {
      this.pmm := pmm;
      list := new List();
    }

    ghost function Abs(): Table
      requires pmm.Shape()
      reads list, pmm, pmm.memoryMap
    {
      Table(Items(list.nodes), pmm.Abs())
    }

    ghost predicate Valid(base: Bitmap)
      reads list, list.nodes, pmm, pmm.memoryMap
    {
      pmm.Valid() && list.Linked() && Consistent(base, Abs())
    }

    /** The walk past every route whose metric is not greater. */
    method FindPosition(metric: u32) returns (prev: Node?<Route>, curr: Node?<Route>, ghost i: nat)
      requires list.Linked()
      ensures list.At(i, prev, curr) && i == Position(Items(list.nodes), metric)
    {
      hide Position;
      ghost var s := Items(list.nodes);
      prev, curr, i := null, list.head, 0;
      while curr != null && curr.item.metric <= metric
        invariant list.At(i, prev, curr)
        invariant forall j | 0 <= j < i :: s[j].metric <= metric
        decreases |list.nodes| - i
      {
        ghost var before := prev;
        prev := curr;
        curr := list.Advance(curr, before, i);
        i := i + 1;
      }
      PositionIs(s, metric, i);
    }

    /** route->next = *ptr; *ptr = route, at the position found. */
    method InsertSorted(node: Node<Route>)
      requires list.Linked() && node !in list.nodes
      modifies list, list.nodes, node
      ensures list.Linked() && Items(list.nodes) == RouteSpec.Add(Items(old(list.nodes)), node.item)
      ensures forall n | n in list.nodes :: n in old(list.nodes) || n == node
    {
      hide Position;
      var prev, curr, i := FindPosition(node.item.metric);
      list.Insert(node, prev, curr, i);
      ItemsInserted(old(list.nodes), i, node);
    }

    /** ipv4_add_route. */
    method Add(c: Call, ghost base: Bitmap) returns (ok: bool)
      requires Valid(base) && c.AddRoute?
      modifies list, list.nodes, pmm.memoryMap, pmm`used
      ensures Valid(base) && |old(Abs()).pool.v| <= MAX_BLOCKS && Abs() == Step(old(Abs()), c)
      ensures ok <==> Page(old(Abs()).pool) != -1
      ensures forall n | n in list.nodes :: n in old(list.nodes) || fresh(n)
    {
      hide Consistent, Search, Position, Fill, Unpack, RouteSpec.Add, FramesOf, Items;
      ConsistentSize(base, Abs());
      AddConsistent(base, Abs(), c);
      var p := pmm.AllocBlocks(1);
      if p == 0 {
        return false;
      }
      var node := new Node(Route(c.network, c.netmask, c.gateway, c.iface, c.metric, p));
      InsertSorted(node);
      return true;
    }

    /** Unlink the route at index k and free its page. */
    method Drop(route: Node<Route>, prev: Node?<Route>, ghost k: nat, ghost base: Bitmap)
      requires Valid(base) && k < |list.nodes| && list.At(k, prev, route)
      modifies list, list.nodes, pmm.memoryMap, pmm`used
      ensures Valid(base) && list.nodes == Without(old(list.nodes), k)
      ensures Abs() == Dropped(old(Abs()), k)
    {
      hide Consistent, Search, Position, Fill, Unpack, FramesOf, Items;
      DropConsistent(base, Abs(), k);
      list.Remove(route, prev, k);
      ItemsWithout(old(list.nodes), k);
      pmm.FreeBlocks(route.item.home, 1);
    }

    /** The walk to the first route of that name, or to the end. */
    method FindNamed(network: Addr, netmask: Addr) returns (prev: Node?<Route>, curr: Node?<Route>, ghost i: nat)
      requires list.Linked()
      ensures list.At(i, prev, curr) && i == First(Items(list.nodes), Named(network, netmask), 0)
    {
      ghost var s, q := Items(list.nodes), Named(network, netmask);
      prev, curr, i := null, list.head, 0;
      while curr != null && !(curr.item.network == network && curr.item.netmask == netmask)
        invariant list.At(i, prev, curr)
        invariant First(s, q, 0) == First(s, q, i)
        decreases |list.nodes| - i
      {
        ghost var before := prev;
        prev := curr;
        curr := list.Advance(curr, before, i);
        i := i + 1;
      }
    }

    /** ipv4_remove_route. */
    method Remove(c: Call, ghost base: Bitmap) returns (ok: bool)
      requires Valid(base) && c.RemoveRoute?
      modifies list, list.nodes, pmm.memoryMap, pmm`used
      ensures Valid(base) && |old(Abs()).pool.v| <= MAX_BLOCKS && Abs() == Step(old(Abs()), c)
      ensures ok <==> exists i | 0 <= i < |old(list.nodes)| :: Hit(old(list.nodes)[i].item, Named(c.network, c.netmask))
      ensures forall n | n in list.nodes :: n in old(list.nodes)
    {
      hide Consistent, Fill, Unpack, FramesOf;
      ConsistentSize(base, Abs());
      var prev, curr, i := FindNamed(c.network, c.netmask);
      if curr == null {
        return false;
      }
      assert Hit(list.nodes[i].item, Named(c.network, c.netmask));
      Drop(curr, prev, i, base);
      return true;
    }

    /** ipv4_find_route: a scan of the whole list. */
    method Find(dest: Addr) returns (best: Node?<Route>)
      requires list.Linked() && Sorted(Items(list.nodes))
      ensures best == null <==> forall i | 0 <= i < |list.nodes| :: !Hit(list.nodes[i].item, To(dest))
      ensures best != null ==>
        && First(Items(list.nodes), To(dest), 0) < |list.nodes|
        && best == list.nodes[First(Items(list.nodes), To(dest), 0)]
    {
      hide Hit, Items;
      ghost var s, q := Items(list.nodes), To(dest);
      best := null;
      var prev: Node?<Route>, route := null, list.head;
      ghost var i := 0;
      while route != null
        invariant list.At(i, prev, route)
        invariant best == null <==> First(s, q, 0) == First(s, q, i)
        invariant best != null ==> First(s, q, 0) < i && best == list.nodes[First(s, q, 0)]
        decreases |list.nodes| - i
      {
        var matches := MatchesRoute(dest, route.item);
        if matches {
          if best == null || route.item.metric < best.item.metric {
            best := route;
          }
        }
        ghost var before := prev;
        prev := route;
        route := list.Advance(route, before, i);
        i := i + 1;
      }
    }

    /** ipv4_flush_routes. */
    method FlushAll(ghost base: Bitmap)
      requires Valid(base)
      modifies list, list.nodes, pmm.memoryMap, pmm`used
      ensures Valid(base) && |old(Abs()).pool.v| <= MAX_BLOCKS
      ensures Abs() == Step(old(Abs()), Flush) && pmm.View() == base
    {
      hide Consistent, Fill, Unpack, FramesOf, Items;
      ConsistentSize(base, Abs());
      FlushConsistent(base, Abs());
      while list.head != null
        invariant Valid(base)
        invariant Released(Abs().pool, Abs().routes) == PmmPool.PoolOf(base)
        invariant forall i | 0 <= i < |list.nodes| :: list.nodes[i] in old(list.nodes)
        decreases |list.nodes|
      {
        var route := list.head;
        Drop(route, null, 0, base);
        FlushConsistent(base, Abs());
      }
      NoRoutes(Abs().pool);
    }
  }

  /** The byte-wise test of the lookup. */
  method MatchesRoute(dest: Addr, r: Route) returns (matches: bool)
    ensures matches == Hit(r, To(dest))
  {
    hide And;
    matches := true;
    var i := 0;
    while i < 4 && matches
      invariant 0 <= i <= 4
      invariant matches ==> forall j | 0 <= j < i :: And(dest[j], r.netmask[j]) == r.network[j]
      invariant !matches ==> !Hit(r, To(dest))
    {
      if And(dest[i], r.netmask[i]) != r.network[i] {
        matches := false;
      }
      i := i + 1;
    }
  }

  lemma {:induction false} PositionIs(s: seq<Route>, m: u32, p: nat)
    requires p <= |s| && (forall j | 0 <= j < p :: s[j].metric <= m) && (p < |s| ==> s[p].metric > m)
    ensures p == Position(s, m)
  {
  }
}
