/** The routing table of net/ipv4.c as a sequence of entries, and which entry a lookup picks. */
module RouteSpec {
  import opened Bits
  import opened Ipv4
  import opened Seqs

  /** An ipv4_route_t; `home` is the address of the page that holds it. */
  datatype Route = Route(network: Addr, netmask: Addr, gateway: Addr, iface: nat, metric: u32, home: u32)

  /** What a search of the table looks for: a route to an address, or a route by its own name. */
  datatype Query = To(dest: Addr) | Named(network: Addr, netmask: Addr)

  predicate Hit(r: Route, q: Query) {
    match q
    case To(dest) => forall i | 0 <= i < 4 :: And(dest[i], r.netmask[i]) == r.network[i]
    case Named(network, netmask) => r.network == network && r.netmask == netmask
  }

  /** Every bit of the network byte is the address bit where the mask has one, and 0 elsewhere. */
  ghost predicate KeptBits(dest: byte, mask: byte, network: byte) {
    forall k: nat :: Bit(network, k) == (Bit(dest, k) && Bit(mask, k))
  }

  lemma {:induction false} AndKeeps(dest: byte, mask: byte, network: byte)
    ensures And(dest, mask) == network <==> KeptBits(dest, mask, network)
  {
    forall k: nat
      ensures Bit(And(dest, mask), k) == (Bit(dest, k) && Bit(mask, k))
    {
      BitOfAnd(dest, mask, k);
    }
    if KeptBits(dest, mask, network) {
      SameBits(And(dest, mask), network);
    }
  }

  /** A route matches an address when they agree in every bit the mask keeps, and the route's network has
      no other bit. */
  lemma {:induction false} HitBits(r: Route, dest: Addr)
    ensures Hit(r, To(dest)) <==> forall i | 0 <= i < 4 :: KeptBits(dest[i], r.netmask[i], r.network[i])
  {
    hide And, KeptBits;
    forall i | 0 <= i < 4
      ensures And(dest[i], r.netmask[i]) == r.network[i] <==> KeptBits(dest[i], r.netmask[i], r.network[i])
    {
      AndKeeps(dest[i], r.netmask[i], r.network[i]);
    }
  }

  /** A mask of all ones asks for the address itself; the default route, all zeros, matches every
      address; a route is found again by its own network and netmask. */
  lemma {:induction false} HitExamples(r: Route, dest: Addr)
    ensures r.netmask == [255, 255, 255, 255] ==> (Hit(r, To(dest)) <==> r.network == dest)
    ensures r.netmask == [0, 0, 0, 0] && r.network == [0, 0, 0, 0] ==> Hit(r, To(dest))
    ensures r.netmask == [255, 255, 255, 0] ==>
      (Hit(r, To(dest)) <==> r.network[..3] == dest[..3] && r.network[3] == 0)
    ensures forall network, netmask ::
      Hit(r, Named(network, netmask)) <==> r.network == network && r.netmask == netmask
  {
    hide And;
    forall i | 0 <= i < 4
      ensures And(dest[i], 255) == dest[i] && And(dest[i], 0) == 0
    {
      assert Pow2(8) == 256 by {
        Pow2Values();
      }
      AndIsLowBits(dest[i], 8);
      AndZero(dest[i]);
    }
    assert r.network == dest <==> forall i | 0 <= i < 4 :: r.network[i] == dest[i];
  }

  lemma {:induction false} AndZero(x: nat)
    ensures And(x, 0) == 0
  {}

  predicate Sorted(s: seq<Route>) {
    forall i, j | 0 <= i < j < |s| :: s[i].metric <= s[j].metric
  }

  /** The number of leading entries whose metric does not exceed m. */
  function Position(s: seq<Route>, m: u32): (p: nat)
    ensures p <= |s|
    ensures forall i | 0 <= i < p :: s[i].metric <= m
    ensures p < |s| ==> s[p].metric > m
  {
    if s == [] || s[0].metric > m then 0 else 1 + Position(s[1..], m)
  }

  /** ipv4_add_route. */
  function Add(s: seq<Route>, r: Route): seq<Route> {
    var p := Position(s, r.metric);
    s[..p] + [r] + s[p..]
  }

  /** The first entry from i on that the query hits; |s| if there is none. */
  function First(s: seq<Route>, q: Query, i: nat): (k: nat)
    requires i <= |s|
    ensures i <= k <= |s|
    ensures k < |s| ==> Hit(s[k], q)
    ensures forall j | i <= j < k :: !Hit(s[j], q)
    decreases |s| - i
  {
    if i == |s| || Hit(s[i], q) then i else First(s, q, i + 1)
  }

  /** ipv4_remove_route. */
  function Remove(s: seq<Route>, q: Query): seq<Route> {
    var k := First(s, q, 0);
    if k < |s| then Without(s, k) else s
  }

  lemma {:induction false} BehindIsHigher(s: seq<Route>, m: u32)
    requires Sorted(s)
    ensures forall i | Position(s, m) <= i < |s| :: s[i].metric > m
  {}

  lemma {:induction false} AddKeepsSorted(s: seq<Route>, r: Route)
    requires Sorted(s)
    ensures Sorted(Add(s, r))
  {
    hide Position;
    BehindIsHigher(s, r.metric);
  }

  lemma {:induction false} WithoutKeepsSorted(s: seq<Route>, k: nat)
    requires Sorted(s) && k < |s|
    ensures Sorted(Without(s, k))
  {
    forall i, j | 0 <= i < j < |s| - 1
      ensures Without(s, k)[i].metric <= Without(s, k)[j].metric
    {
      assert s[if i < k then i else i + 1].metric <= s[if j < k then j else j + 1].metric;
    }
  }

  // ------------------------------------------------ the table against the order of insertion

  /** The entries of one metric, in order. */
  function OfMetric(s: seq<Route>, m: u32): seq<Route> {
    if s == [] then [] else (if s[0].metric == m then [s[0]] else []) + OfMetric(s[1..], m)
  }

  lemma {:induction false} OfMetricCons(r: Route, t: seq<Route>, m: u32)
    ensures OfMetric([r] + t, m) == if r.metric == m then [r] + OfMetric(t, m) else OfMetric(t, m)
  {
    assert ([r] + t)[1..] == t;
  }

  lemma {:induction false} OfMetricConcat(s: seq<Route>, t: seq<Route>, m: u32)
    ensures OfMetric(s + t, m) == OfMetric(s, m) + OfMetric(t, m)
    decreases |s|
  {
    if s == [] {
      assert s + t == t;
    } else {
      hide OfMetric;
      assert s == [s[0]] + s[1..];
      assert s + t == [s[0]] + (s[1..] + t);
      OfMetricConcat(s[1..], t, m);
      OfMetricCons(s[0], s[1..], m);
      OfMetricCons(s[0], s[1..] + t, m);
    }
  }

  lemma {:induction false} OfMetricNone(s: seq<Route>, m: u32)
    requires forall i | 0 <= i < |s| :: s[i].metric != m
    ensures OfMetric(s, m) == []
  {
    if s != [] {
      OfMetricNone(s[1..], m);
    }
  }

  /** The table s holds the routes of the log, which lists live routes in the order they were added:
      sorted by metric, and within one metric oldest first. */
  ghost predicate StableSort(s: seq<Route>, log: seq<Route>) {
    Sorted(s) && forall m: u32 :: OfMetric(s, m) == OfMetric(log, m)
  }

  lemma {:induction false} OfMetricOne(r: Route, m: u32)
    ensures OfMetric([r], m) == if r.metric == m then [r] else []
  {
    assert [r][1..] == [];
  }

  lemma {:induction false} AddOfMetric(s: seq<Route>, r: Route, m: u32)
    requires Sorted(s)
    ensures OfMetric(Add(s, r), m) == OfMetric(s, m) + OfMetric([r], m)
  {
    hide OfMetric, Position;
    var p := Position(s, r.metric);
    assert s == s[..p] + s[p..];
    OfMetricConcat(s[..p], s[p..], m);
    OfMetricConcat(s[..p] + [r], s[p..], m);
    OfMetricConcat(s[..p], [r], m);
    OfMetricOne(r, m);
    BehindIsHigher(s, r.metric);
    if m == r.metric {
      OfMetricNone(s[p..], m);
    }
  }

  /** A new route goes behind the older ones of its metric. */
  lemma {:induction false} AddIsStable(s: seq<Route>, log: seq<Route>, r: Route)
    requires StableSort(s, log)
    ensures StableSort(Add(s, r), log + [r])
  {
    hide OfMetric, Add;
    AddKeepsSorted(s, r);
    forall m: u32
      ensures OfMetric(Add(s, r), m) == OfMetric(log + [r], m)
    {
      AddOfMetric(s, r, m);
      OfMetricConcat(log, [r], m);
    }
  }

  // ------------------------------------------------ lookups

  /** Entry b of the log has the least metric among the hits and is the oldest of that metric. */
  ghost predicate Best(log: seq<Route>, q: Query, b: nat) {
    && b < |log| && Hit(log[b], q)
    && forall j | 0 <= j < |log| && Hit(log[j], q) ::
         log[b].metric < log[j].metric || (log[b].metric == log[j].metric && b <= j)
  }

  /** k is the first hit of metric m. */
  ghost predicate FirstOf(s: seq<Route>, q: Query, m: u32, k: nat) {
    && k < |s| && Hit(s[k], q) && s[k].metric == m
    && forall j | 0 <= j < k && s[j].metric == m :: !Hit(s[j], q)
  }

  /** The entries of one metric without the first hit among them. */
  function DropHit(s: seq<Route>, q: Query): seq<Route> {
    if s == [] then [] else if Hit(s[0], q) then s[1..] else [s[0]] + DropHit(s[1..], q)
  }

  lemma {:induction false} DropHitCons(r: Route, t: seq<Route>, q: Query)
    requires !Hit(r, q)
    ensures DropHit([r] + t, q) == [r] + DropHit(t, q)
  {
    assert ([r] + t)[1..] == t;
  }

  /** The first hit of a metric, in the whole list and among the entries of that metric. */
  lemma {:induction false} FirstOfAmongOwn(s: seq<Route>, q: Query, m: u32, k: nat)
    requires FirstOf(s, q, m, k)
    ensures First(OfMetric(s, m), q, 0) < |OfMetric(s, m)| && OfMetric(s, m)[First(OfMetric(s, m), q, 0)] == s[k]
    ensures OfMetric(Without(s, k), m) == DropHit(OfMetric(s, m), q)
  {
    if k == 0 {
      assert Without(s, 0) == s[1..];
    } else {
      hide Hit, OfMetric, DropHit, First;
      var r, t := s[0], s[1..];
      assert s == [r] + t;
      forall j | 0 <= j < k - 1 && t[j].metric == m
        ensures !Hit(t[j], q)
      {
        assert t[j] == s[j + 1];
      }
      FirstOfAmongOwn(t, q, m, k - 1);
      assert Without(s, k) == [r] + Without(t, k - 1);
      OfMetricCons(r, t, m);
      OfMetricCons(r, Without(t, k - 1), m);
      if r.metric == m {
        FirstSkips(r, OfMetric(t, m), q);
        DropHitCons(r, OfMetric(t, m), q);
      }
    }
  }

  lemma {:induction false} FirstShift(r: Route, s: seq<Route>, q: Query, i: nat)
    requires i <= |s|
    ensures First([r] + s, q, i + 1) == First(s, q, i) + 1
    decreases |s| - i
  {
    hide Hit;
    if i < |s| {
      FirstShift(r, s, q, i + 1);
    }
  }

  lemma {:induction false} FirstSkips(r: Route, s: seq<Route>, q: Query)
    requires !Hit(r, q)
    ensures First([r] + s, q, 0) == First(s, q, 0) + 1
  {
    hide Hit;
    FirstShift(r, s, q, 0);
  }

  lemma {:induction false} OtherMetric(s: seq<Route>, k: nat, m: u32)
    requires k < |s| && s[k].metric != m
    ensures OfMetric(Without(s, k), m) == OfMetric(s, m)
  {
    OfMetricConcat(s[..k], s[k + 1..], m);
    OfMetricConcat(s[..k] + [s[k]], s[k + 1..], m);
    OfMetricConcat(s[..k], [s[k]], m);
    OfMetricOne(s[k], m);
    assert s == s[..k] + [s[k]] + s[k + 1..];
  }

  /** A member of the entries of one metric is an entry of that metric. */
  lemma {:induction false} OfMetricMember(s: seq<Route>, m: u32, r: Route)
    ensures r in OfMetric(s, m) <==> r.metric == m && r in s
  {
    if s != [] {
      OfMetricMember(s[1..], m, r);
      assert s == [s[0]] + s[1..];
    }
  }

  /** The first hit in a sorted list has the least metric of all hits. */
  lemma {:induction false} LeastMetric(s: seq<Route>, log: seq<Route>, q: Query, r: Route)
    requires StableSort(s, log) && r in log && Hit(r, q)
    ensures First(s, q, 0) < |s| && s[First(s, q, 0)].metric <= r.metric
  {
    hide Hit, First;
    OfMetricMember(log, r.metric, r);
    OfMetricMember(s, r.metric, r);
    var i :| 0 <= i < |s| && s[i] == r;
  }

  lemma {:induction false} FirstIsFirstOf(s: seq<Route>, q: Query)
    requires First(s, q, 0) < |s|
    ensures FirstOf(s, q, s[First(s, q, 0)].metric, First(s, q, 0))
  {}

  /** The first index of the log that holds a hit of metric m. */
  lemma {:induction false} FindFirstOf(log: seq<Route>, q: Query, m: u32, r: Route) returns (b: nat)
    requires r in log && r.metric == m && Hit(r, q)
    ensures FirstOf(log, q, m, b)
  {
    hide Hit;
    if Hit(log[0], q) && log[0].metric == m {
      b := 0;
    } else {
      assert log == [log[0]] + log[1..];
      b := FindFirstOf(log[1..], q, m, r);
      b := b + 1;
      forall j | 0 <= j < b && log[j].metric == m
        ensures !Hit(log[j], q)
      {
        assert j > 0 ==> log[j] == log[1..][j - 1];
      }
    }
  }

  /** The full scan of a lookup finds the first hit of the table, and that is the least-metric
      oldest hit of the log; it finds nothing exactly when the log has no hit. */
  lemma {:induction false} LookupIsBest(s: seq<Route>, log: seq<Route>, q: Query) returns (b: nat)
    requires StableSort(s, log)
    ensures First(s, q, 0) < |s| <==> exists j :: 0 <= j < |log| && Hit(log[j], q)
    ensures First(s, q, 0) < |s| ==> Best(log, q, b) && log[b] == s[First(s, q, 0)]
    ensures First(s, q, 0) < |s| ==> FirstOf(log, q, log[b].metric, b)
  {
    hide Hit, First, OfMetric;
    b := 0;
    var k := First(s, q, 0);
    if k < |s| {
      var m := s[k].metric;
      OfMetricMember(s, m, s[k]);
      OfMetricMember(log, m, s[k]);
      b := FindFirstOf(log, q, m, s[k]);
      FirstIsFirstOf(s, q);
      FirstOfAmongOwn(s, q, m, k);
      FirstOfAmongOwn(log, q, m, b);
      BestByMetric(s, log, q, b);
    } else if exists j :: 0 <= j < |log| && Hit(log[j], q) {
      var j :| 0 <= j < |log| && Hit(log[j], q);
      LeastMetric(s, log, q, log[j]);
    }
  }

  lemma {:induction false} BestByMetric(s: seq<Route>, log: seq<Route>, q: Query, b: nat)
    requires StableSort(s, log) && First(s, q, 0) < |s| && FirstOf(log, q, s[First(s, q, 0)].metric, b)
    ensures Best(log, q, b)
  {
    hide Hit, First, OfMetric, StableSort;
    forall j | 0 <= j < |log| && Hit(log[j], q)
      ensures log[b].metric < log[j].metric || (log[b].metric == log[j].metric && b <= j)
    {
      LeastMetric(s, log, q, log[j]);
    }
  }

  /** Removing the first hit of the table removes the best hit of the log. */
  lemma {:induction false} RemoveIsStable(s: seq<Route>, log: seq<Route>, q: Query, b: nat)
    requires StableSort(s, log) && First(s, q, 0) < |s|
    requires FirstOf(log, q, s[First(s, q, 0)].metric, b)
    ensures StableSort(Without(s, First(s, q, 0)), Without(log, b))
  {
    hide Hit, First, OfMetric, Without;
    var k := First(s, q, 0);
    WithoutKeepsSorted(s, k);
    FirstIsFirstOf(s, q);
    forall m: u32
      ensures OfMetric(Without(s, k), m) == OfMetric(Without(log, b), m)
    {
      if m == s[k].metric {
        FirstOfAmongOwn(s, q, m, k);
        FirstOfAmongOwn(log, q, m, b);
      } else {
        OtherMetric(s, k, m);
        OtherMetric(log, b, m);
      }
    }
  }
}
