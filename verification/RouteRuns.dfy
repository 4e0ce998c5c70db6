/** Any sequence of route additions, removals and flushes (net/ipv4.c), against a log that keeps the
    live routes in the order they were added. */
module RouteRuns {
  import opened Bitmaps
  import opened Holdings
  import opened Ipv4
  import opened Pmm
  import opened RouteSpec
  import opened Routes
  import opened Seqs
  import PmmPool

  datatype History = History(t: Table, log: seq<Route>)

  ghost predicate HasBest(log: seq<Route>, q: Query) {
    exists b: nat :: Best(log, q, b)
  }

  ghost function BestOf(log: seq<Route>, q: Query): (b: nat)
    requires HasBest(log, q)
    ensures b < |log| && Best(log, q, b)
  {
    var b: nat :| Best(log, q, b);
    b
  }

  /** The log after a call: additions go to the end, a removal takes out the route with the least
      metric, and the oldest of those, among the routes it names. */
  ghost function LogStep(h: History, c: Call): seq<Route>
    requires |h.t.pool.v| <= MAX_BLOCKS
  {
    match c
    case AddRoute(_, _, _, _, _) => if Page(h.t.pool) == -1 then h.log else h.log + [Entry(c, Page(h.t.pool))]
    case RemoveRoute(network, netmask) =>
      if HasBest(h.log, Named(network, netmask)) then Without(h.log, BestOf(h.log, Named(network, netmask))) else h.log
    case Flush => []
  }

  ghost function Run(base: Bitmap, calls: seq<Call>): (h: History)
    requires |base| <= MAX_BLOCKS
    ensures |h.t.pool.v| == |base|
  {
    if calls == [] then History(Table([], PmmPool.PoolOf(base)), [])
    else
      var h := Run(base, calls[..|calls| - 1]);
      History(Step(h.t, calls[|calls| - 1]), LogStep(h, calls[|calls| - 1]))
  }

  ghost predicate Tracks(base: Bitmap, h: History) {
    && Consistent(base, h.t)
    && StableSort(h.t.routes, h.log)
    && multiset(h.t.routes) == multiset(h.log)
  }

  lemma {:induction false} BestUnique(log: seq<Route>, q: Query, a: nat, b: nat)
    requires Best(log, q, a) && Best(log, q, b)
    ensures a == b
  {
    hide Hit;
  }

  lemma {:induction false} WithoutMultiset<T>(s: seq<T>, k: nat)
    requires k < |s|
    ensures multiset(Without(s, k)) == multiset(s) - multiset{s[k]}
  {
    assert s == s[..k] + [s[k]] + s[k + 1..];
  }

  lemma {:induction false} AddMultiset(s: seq<Route>, r: Route)
    ensures multiset(Add(s, r)) == multiset(s) + multiset{r}
  {
    hide Position;
    var p := Position(s, r.metric);
    assert s == s[..p] + s[p..];
  }

  lemma {:induction false} AddTracks(base: Bitmap, h: History, c: Call)
    requires |h.t.pool.v| <= MAX_BLOCKS && Tracks(base, h) && c.AddRoute?
    ensures Tracks(base, History(Step(h.t, c), LogStep(h, c)))
  {
    hide Consistent, StableSort, Add, PmmPool.Found;
    AddConsistent(base, h.t, c);
    if Page(h.t.pool) != -1 {
      AddIsStable(h.t.routes, h.log, Entry(c, Page(h.t.pool)));
      AddMultiset(h.t.routes, Entry(c, Page(h.t.pool)));
    }
  }

  lemma {:induction false} RemoveTracks(base: Bitmap, h: History, c: Call)
    requires |h.t.pool.v| <= MAX_BLOCKS && Tracks(base, h) && c.RemoveRoute?
    ensures Tracks(base, History(Step(h.t, c), LogStep(h, c)))
  {
    hide Consistent, StableSort, First, Hit, Best, FirstOf, PmmPool.Step, Without;
    var q := Named(c.network, c.netmask);
    var s, log, k := h.t.routes, h.log, First(h.t.routes, q, 0);
    var b := LookupIsBest(s, log, q);
    if k < |s| {
      assert HasBest(log, q);
      BestUnique(log, q, b, BestOf(log, q));
      BestInLog(log, q, b);
      DropConsistent(base, h.t, k);
      RemoveIsStable(s, log, q, b);
      WithoutMultiset(s, k);
      WithoutMultiset(log, b);
    } else if HasBest(log, q) {
      var b': nat :| Best(log, q, b');
      BestInLog(log, q, b');
      assert false;
    }
  }

  lemma {:induction false} BestInLog(log: seq<Route>, q: Query, b: nat)
    requires Best(log, q, b)
    ensures b < |log| && Hit(log[b], q)
  {}

  lemma {:induction false} FlushTracks(base: Bitmap, h: History)
    requires |h.t.pool.v| <= MAX_BLOCKS && Tracks(base, h)
    ensures Tracks(base, History(Step(h.t, Flush), LogStep(h, Flush)))
  {
    FlushConsistent(base, h.t);
    NoneConserved(base);
  }

  /** After every sequence of calls the table is sorted by metric with equal metrics in insertion
      order, holds exactly the live routes, and owns exactly their pages. */
  lemma {:induction false} RunTracks(base: Bitmap, calls: seq<Call>)
    requires 0 < |base| <= MAX_BLOCKS && base[0]
    ensures Tracks(base, Run(base, calls))
    decreases |calls|
  {
    hide Tracks, Step;
    if calls == [] {
      NoneTracks(base);
    } else {
      RunTracks(base, calls[..|calls| - 1]);
      var h, c := Run(base, calls[..|calls| - 1]), calls[|calls| - 1];
      match c
      case AddRoute(_, _, _, _, _) => AddTracks(base, h, c);
      case RemoveRoute(_, _) => RemoveTracks(base, h, c);
      case Flush => FlushTracks(base, h);
    }
  }

  lemma {:induction false} NoneTracks(base: Bitmap)
    requires 0 < |base| <= MAX_BLOCKS && base[0]
    ensures Tracks(base, History(Table([], PmmPool.PoolOf(base)), []))
  {
    NoneConserved(base);
  }

  /** What a lookup returns after any history: the matching route of least metric, the one added
      first among equals; nothing only if no live route matches. */
  lemma {:induction false} LookupAfterRun(base: Bitmap, calls: seq<Call>, dest: Addr) returns (b: nat)
    requires 0 < |base| <= MAX_BLOCKS && base[0]
    ensures var h := Run(base, calls);
      var k := First(h.t.routes, To(dest), 0);
      if k < |h.t.routes| then Best(h.log, To(dest), b) && h.t.routes[k] == h.log[b]
      else forall j | 0 <= j < |h.log| :: !Hit(h.log[j], To(dest))
  {
    hide Hit, First, Best, StableSort, Consistent;
    RunTracks(base, calls);
    b := LookupIsBest(Run(base, calls).t.routes, Run(base, calls).log, To(dest));
    if First(Run(base, calls).t.routes, To(dest), 0) < |Run(base, calls).t.routes| {
      BestInLog(Run(base, calls).log, To(dest), b);
    }
  }
}
