/** The life of address spaces (mem/vmm.c): directories are created, cloned, mapped into and freed in
    any order. Which runs keep them apart, and what each of them then denotes. */
module SpaceRuns {
  import opened PageTables
  import opened Clone
  import opened CloneIsolation
  import opened AddressSpaces

  /** The machine and the directories alive in it. */
  datatype World = World(s: Machine, dirs: set<nat>)

  datatype Event =
    | Through(c: Via)                       // vmm_map_page or vmm_unmap_page
    | Created(dir: nat)                     // vmm_create_directory
    | Cloned(src: nat, dest: nat)           // vmm_clone_directory
    | CloneFailed(src: nat, owner: Owner)   // vmm_clone_directory, out of memory
    | Freed(dir: nat)                       // vmm_free_directory

  /** vmm_create_directory: a free frame, cleared. */
  ghost predicate IsNew(s: Machine, s': Machine, dir: nat) {
    0 < dir < |s.v| == |s.m| <= PAGES && s.v[0] && !s.v[dir] && s' == Machine(s.m[dir := Zeroed()], s.v[dir := true])
  }

  /** vmm_free_directory: the directory and its tables are no longer in use. */
  ghost predicate IsFreed(s: Machine, s': Machine, dir: nat) {
    && s'.m == s.m && |s'.v| == |s.v| && dir < |s.m|
    && forall f | 0 <= f < |s.v| :: s'.v[f] <==> s.v[f] && f != dir && !IsTable(s.m, dir, WORDS, f)
  }

  ghost predicate Next(w: World, e: Event, w': World) {
    match e
    case Through(c) =>
      c.dir in w.dirs && WellFormed(w.s, c.dir) && w' == World(PageTables.Step(w.s, c.dir, c.call).s, w.dirs)
    case Created(dir) => IsNew(w.s, w'.s, dir) && w'.dirs == w.dirs + {dir}
    case Cloned(src, dest) => src in w.dirs && IsClone(w.s, w'.s, src, dest) && w'.dirs == w.dirs + {dest}
    case CloneFailed(src, owner) => src in w.dirs && Failed(w.s, w'.s, src, owner) && w'.dirs == w.dirs
    case Freed(dir) => dir in w.dirs && IsFreed(w.s, w'.s, dir) && w'.dirs == w.dirs - {dir}
  }

  /** The directories have no table in common. */
  ghost predicate NothingShared(m: seq<Frame>, a: nat, b: nat) {
    a < |m| && b < |m| && forall i | 0 <= i < WORDS :: !Shares(m, a, b, i)
  }

  /** A freed directory shares no table with another living one. */
  ghost predicate Harmless(w: World, e: Event) {
    e.Freed? ==> forall a | a in w.dirs && a != e.dir :: NothingShared(w.s.m, a, e.dir)
  }

  // ---------------------------------------------------------------- one event

  lemma {:induction false} NewIsApart(s: Machine, s': Machine, dir: nat, d: nat)
    requires WellFormed(s, d) && IsNew(s, s', dir)
    ensures dir != d && Apart(s', d, dir) && Apart(s', dir, d)
  {
    hide View;
    assert Extends(s, s');
    SourceUnchanged(s, s', d);
    assert !Present(0);
    forall i | 0 <= i < WORDS
      ensures TableOk(s', dir, i) && AvoidsDirectory(s'.m, d, dir, i) && AvoidsDirectory(s'.m, dir, d, i)
    {
      assert TableOk(s, d, i);
    }
  }

  /** A new directory joins the others. */
  lemma {:induction false} NewJoins(s: Machine, s': Machine, dirs: set<nat>, dir: nat)
    requires Family(s, dirs) && IsNew(s, s', dir)
    ensures dir !in dirs && Family(s', dirs + {dir})
    ensures forall d | d in dirs :: d < |s.m| && View(s'.m, d) == View(s.m, d)
  {
    hide View, Apart;
    assert Extends(s, s');
    ExtensionKeepsFamily(s, s', dirs);
    assert !Present(0);
    assert WellFormed(s', dir);
    forall d | d in dirs
      ensures dir != d && Apart(s', d, dir) && Apart(s', dir, d)
    {
      InFamily(s, dirs, d);
      NewIsApart(s, s', dir, d);
    }
  }

  /** The others survive a free if and only if none of them shares a table with the freed directory. */
  lemma {:induction false} FreeKeepsExactly(w: World, dir: nat, w': World)
    requires Family(w.s, w.dirs) && Next(w, Freed(dir), w')
    ensures Family(w'.s, w'.dirs) <==> Harmless(w, Freed(dir))
    ensures forall d | d in w'.dirs :: d < |w.s.m| == |w'.s.m| && View(w'.s.m, d) == View(w.s.m, d)
  {
    hide View, Apart, WellFormed, IsTable, Shares;
    InFamily(w.s, w.dirs, dir);
    forall a | a in w'.dirs
      ensures a < |w.s.m|
      ensures WellFormed(w'.s, a) <==> NothingShared(w.s.m, a, dir)
    {
      FamilyApart(w.s, w.dirs, a, dir);
      InFamily(w.s, w.dirs, a);
      FreeSparesExactly(w.s, a, dir, w'.s.v);
      assert w'.s == Machine(w.s.m, w'.s.v);
    }
    if forall a | a in w'.dirs :: WellFormed(w'.s, a) {
      forall a, b | a in w'.dirs && b in w'.dirs && a != b
        ensures Apart(w'.s, a, b)
      {
        FamilyApart(w.s, w.dirs, a, b);
        OthersStayApart(w.s, w'.s, a, b);
      }
    }
  }

  /** One event: the directories stay apart, unless one is freed that shares a table. */
  lemma {:induction false} NextKeepsExactly(w: World, e: Event, w': World)
    requires Family(w.s, w.dirs) && Next(w, e, w')
    ensures Family(w'.s, w'.dirs) <==> Harmless(w, e)
  {
    hide Family, WellFormed, IsClone, Failed, IsNew, IsFreed, PageTables.Step, Harmless;
    NotFreed(w, e);
    match e
    case Through(c) => CallKeepsFamily(w.s, w.dirs, c);
    case Created(dir) => NewJoins(w.s, w'.s, w.dirs, dir);
    case Cloned(src, dest) => CloneJoins(w.s, w'.s, w.dirs, src, dest);
    case CloneFailed(src, owner) =>
      FailedExtends(w.s, w'.s, src, owner);
      ExtensionKeepsFamily(w.s, w'.s, w.dirs);
    case Freed(dir) => FreeKeepsExactly(w, dir, w');
  }

  lemma {:induction false} NotFreed(w: World, e: Event)
    ensures !e.Freed? ==> Harmless(w, e)
  {}

  lemma {:induction false} FailedExtends(s0: Machine, s: Machine, src: nat, owner: Owner)
    requires Failed(s0, s, src, owner)
    ensures Extends(s0, s)
  {}

  /** The event is a successful call that d sees. */
  ghost predicate Takes(w: World, e: Event, d: nat) {
    && e.Through? && d < |w.s.m| && e.c.dir < |w.s.m| && WellFormed(w.s, e.c.dir)
    && PageTables.Step(w.s, e.c.dir, e.c.call).ok && Sees(w.s.m, d, e.c)
  }

  /** What one event does to the map of a directory that lives on: a call it sees changes one page;
      creating, cloning and freeing others changes nothing. */
  lemma {:induction false} NextSeen(w: World, e: Event, w': World, d: nat)
    requires Family(w.s, w.dirs) && Next(w, e, w') && d in w.dirs && d in w'.dirs
    ensures d < |w.s.m| == |w'.s.m|
    ensures View(w'.s.m, d) == if Takes(w, e, d) then Applied(View(w.s.m, d), e.c.call) else View(w.s.m, d)
  {
    hide View, Family, WellFormed, IsClone, Failed, IsNew, IsFreed, PageTables.Step, Applied, Sees, Harmless;
    InFamily(w.s, w.dirs, d);
    match e
    case Through(c) =>
      InFamily(w.s, w.dirs, c.dir);
      CallSeen(w.s, w.dirs, c, d);
      SameSize(w.s, c.dir, c.call);
    case Created(dir) =>
      NewSize(w.s, w'.s, dir);
      NewJoins(w.s, w'.s, w.dirs, dir);
    case Cloned(src, dest) =>
      CloneExtends(w.s, w'.s, src, dest);
      CloneJoins(w.s, w'.s, w.dirs, src, dest);
    case CloneFailed(src, owner) =>
      FailedExtends(w.s, w'.s, src, owner);
      ExtensionKeepsFamily(w.s, w'.s, w.dirs);
    case Freed(dir) => FreeKeepsExactly(w, dir, w');
  }

  lemma {:induction false} NewSize(s: Machine, s': Machine, dir: nat)
    requires IsNew(s, s', dir)
    ensures |s'.m| == |s.m|
  {}

  // ---------------------------------------------------------------- whole runs

  ghost predicate Trace(ws: seq<World>, es: seq<Event>) {
    |ws| == |es| + 1 && forall i | 0 <= i < |es| :: Next(ws[i], es[i], ws[i + 1])
  }

  /** The directories alive lie apart at every moment. */
  ghost predicate AlwaysApart(ws: seq<World>) {
    forall i | 0 <= i < |ws| :: Family(ws[i].s, ws[i].dirs)
  }

  ghost predicate AllHarmless(ws: seq<World>, es: seq<Event>)
    requires |ws| == |es| + 1
  {
    forall i | 0 <= i < |es| :: Harmless(ws[i], es[i])
  }

  /** Over every run of creations, clones (failed ones included), frees, map and unmap calls the living
      directories are well formed and lie apart if and only if no directory is freed while it shares a
      table with another living one. */
  lemma {:induction false} AlwaysApartExactly(ws: seq<World>, es: seq<Event>)
    requires Trace(ws, es) && Family(ws[0].s, ws[0].dirs)
    ensures AlwaysApart(ws) <==> AllHarmless(ws, es)
  {
    hide Family, Next, Harmless;
    if AlwaysApart(ws) {
      forall i | 0 <= i < |es|
        ensures Harmless(ws[i], es[i])
      {
        NextKeepsExactly(ws[i], es[i], ws[i + 1]);
      }
    }
    if AllHarmless(ws, es) {
      forall i | 0 <= i < |ws|
        ensures Family(ws[i].s, ws[i].dirs)
      {
        HarmlessKeeps(ws, es, i);
      }
    }
  }

  lemma {:induction false} HarmlessKeeps(ws: seq<World>, es: seq<Event>, i: nat)
    requires Trace(ws, es) && Family(ws[0].s, ws[0].dirs) && AllHarmless(ws, es) && i < |ws|
    ensures Family(ws[i].s, ws[i].dirs)
  {
    hide Family, Next, Harmless;
    if i > 0 {
      HarmlessKeeps(ws, es, i - 1);
      NextKeepsExactly(ws[i - 1], es[i - 1], ws[i]);
    }
  }

  ghost predicate Alive(ws: seq<World>, d: nat) {
    forall i | 0 <= i < |ws| :: d in ws[i].dirs
  }

  /** On an ordinary finite map: the successful calls that d sees, among the first n events. */
  ghost function SeenOf(ws: seq<World>, es: seq<Event>, d: nat, f: map<nat, Mapping>, n: nat): map<nat, Mapping>
    requires n <= |es| < |ws|
  {
    if n == 0 then f
    else
      var g := SeenOf(ws, es, d, f, n - 1);
      if Takes(ws[n - 1], es[n - 1], d) then Applied(g, es[n - 1].c.call) else g
  }

  /** The same for the calls that name d itself. */
  ghost function OwnOf(ws: seq<World>, es: seq<Event>, d: nat, f: map<nat, Mapping>, n: nat): map<nat, Mapping>
    requires n <= |es| < |ws|
  {
    if n == 0 then f
    else
      var g := OwnOf(ws, es, d, f, n - 1);
      if Takes(ws[n - 1], es[n - 1], d) && es[n - 1].c.dir == d then Applied(g, es[n - 1].c.call) else g
  }

  /** In such a run every directory that lives through it denotes what its own calls and those through
      its shared tables made of its map, whatever was created, cloned and freed meanwhile. */
  lemma {:induction false} SurvivorSees(ws: seq<World>, es: seq<Event>, d: nat, n: nat)
    requires Trace(ws, es) && AlwaysApart(ws) && Alive(ws, d) && n <= |es|
    ensures d < |ws[0].s.m| == |ws[n].s.m|
    ensures View(ws[n].s.m, d) == SeenOf(ws, es, d, View(ws[0].s.m, d), n)
  {
    hide View, Family, Next, Takes, Applied;
    InFamily(ws[0].s, ws[0].dirs, d);
    if n > 0 {
      SurvivorSees(ws, es, d, n - 1);
      NextSeen(ws[n - 1], es[n - 1], ws[n], d);
    }
  }

  /** Below 3 GB only its own calls show. */
  lemma {:induction false} SurvivorIsPrivate(ws: seq<World>, es: seq<Event>, d: nat, n: nat)
    requires Trace(ws, es) && AlwaysApart(ws) && Alive(ws, d) && n <= |es|
    ensures d < |ws[0].s.m| == |ws[n].s.m|
    ensures SameBelow(View(ws[n].s.m, d), OwnOf(ws, es, d, View(ws[0].s.m, d), n))
  {
    hide View, Family, Next, Applied, SameBelow, Takes;
    InFamily(ws[0].s, ws[0].dirs, d);
    if n == 0 {
      SameBelowSelf(View(ws[0].s.m, d));
    } else {
      var w, e := ws[n - 1], es[n - 1];
      SurvivorIsPrivate(ws, es, d, n - 1);
      NextSeen(w, e, ws[n], d);
      if Takes(w, e, d) {
        OthersAreAbove(w, e, d);
        AppliedBelow(View(w.s.m, d), OwnOf(ws, es, d, View(ws[0].s.m, d), n - 1), e.c.call);
      }
    }
  }

  lemma {:induction false} SameBelowSelf(f: map<nat, Mapping>)
    ensures SameBelow(f, f)
  {}

  lemma {:induction false} OthersAreAbove(w: World, e: Event, d: nat)
    requires Takes(w, e, d)
    ensures e.Through? && (e.c.dir != d ==> PageOf(e.c.call) >= 0xC_0000)
  {}
}
