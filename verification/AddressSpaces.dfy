/** Any number of directories side by side (mem/vmm.c): a clone joins the family, and over every run
    of map and unmap calls each directory sees its own calls and those through its shared tables. */
module AddressSpaces {
  import opened Bitmaps
  import opened PageTables
  import opened Clone
  import opened CloneIsolation

  /** Well-formed directories, pairwise apart. */
  ghost predicate Family(s: Machine, dirs: set<nat>) {
    && (forall d | d in dirs :: WellFormed(s, d))
    && (forall a, b | a in dirs && b in dirs && a != b :: Apart(s, a, b))
  }

  /** The kernel tables any two of the directories share are the same in both states. */
  ghost predicate SameSharing(s: Machine, s': Machine, dirs: set<nat>) {
    && |s'.m| == |s.m| && (forall d | d in dirs :: d < |s.m|)
    && (forall a, b | a in dirs && b in dirs && a != b :: SharesSame(s.m, s'.m, a, b))
  }

  ghost predicate SharesSame(m: seq<Frame>, m': seq<Frame>, a: nat, b: nat)
    requires a < |m| == |m'| && b < |m|
  {
    forall i | 0 <= i < WORDS :: Shares(m', a, b, i) <==> Shares(m, a, b, i)
  }

  lemma {:induction false} InFamily(s: Machine, dirs: set<nat>, d: nat)
    requires Family(s, dirs) && d in dirs
    ensures WellFormed(s, d) && d < |s.m| == |s.v| <= PAGES
  {}

  lemma {:induction false} FamilyApart(s: Machine, dirs: set<nat>, a: nat, b: nat)
    requires Family(s, dirs) && a in dirs && b in dirs && a != b
    ensures Apart(s, a, b)
  {}

  // ---------------------------------------------------------------- clones

  /** Only frames that were free changed: two directories stay apart. */
  lemma {:induction false} ExtensionKeepsApart(s0: Machine, s: Machine, a: nat, b: nat)
    requires Apart(s0, a, b) && Extends(s0, s)
    ensures Apart(s, a, b) && a < |s.m| == |s0.m| && b < |s.m| && SharesSame(s0.m, s.m, a, b)
  {
    hide View, Apart, WellFormed;
    ApartParts(s0, a, b);
    SourceUnchanged(s0, s, a);
    SourceUnchanged(s0, s, b);
    OthersStayApart(s0, s, a, b);
  }

  /** Only frames that were free changed: the family and every map of it stay. */
  lemma {:induction false} ExtensionKeepsFamily(s0: Machine, s: Machine, dirs: set<nat>)
    requires Family(s0, dirs) && Extends(s0, s)
    ensures Family(s, dirs) && SameSharing(s0, s, dirs)
    ensures forall d | d in dirs :: d < |s0.m| && View(s.m, d) == View(s0.m, d)
  {
    hide View, Apart, WellFormed, SharesSame;
    forall d | d in dirs
      ensures WellFormed(s, d) && d < |s0.m| && View(s.m, d) == View(s0.m, d)
    {
      InFamily(s0, dirs, d);
      SourceUnchanged(s0, s, d);
    }
    forall a, b | a in dirs && b in dirs && a != b
      ensures a < |s.m| == |s0.m| && b < |s.m| && Apart(s, a, b) && SharesSame(s0.m, s.m, a, b)
    {
      ExtensionKeepsApart(s0, s, a, b);
    }
  }

  /** The clone lies apart from a directory that lay apart from the source. */
  lemma {:induction false} CloneApartFromOther(s0: Machine, s: Machine, src: nat, dest: nat, d: nat)
    requires Apart(s0, d, src) && IsClone(s0, s, src, dest)
    ensures Apart(s, d, dest)
    ensures d < |s.m| == |s0.m| && src < |s.m| && dest < |s.m|
    ensures forall i | 0 <= i < WORDS :: Shares(s.m, d, dest, i) <==> Shares(s0.m, d, src, i)
  {
    hide View, TablesDistinct;
    SourceUnchanged(s0, s, d);
    forall i | 0 <= i < WORDS
      ensures AvoidsDirectory(s.m, d, dest, i) && AvoidsDirectory(s.m, dest, d, i)
      ensures Shares(s.m, d, dest, i) <==> Shares(s0.m, d, src, i)
    {
      assert SlotCloned(s0, s, src, dest, i) && TableOk(s0, d, i) && AvoidsDirectory(s0.m, src, d, i);
    }
    forall i, j | 0 <= i < WORDS && 0 <= j < WORDS
      ensures SlotsApart(s.m, d, dest, i, j)
    {
      assert SlotCloned(s0, s, src, dest, j) && TableOk(s0, d, i) && SlotsApart(s0.m, d, src, i, j);
    }
  }

  /** vmm_clone_directory adds a member to the family; what it shares with any other directory is
      what its source shared, and no map of the family changes. */
  lemma {:induction false} CloneJoins(s0: Machine, s: Machine, dirs: set<nat>, src: nat, dest: nat)
    requires Family(s0, dirs) && src in dirs && IsClone(s0, s, src, dest)
    ensures dest !in dirs && Family(s, dirs + {dest}) && SameSharing(s0, s, dirs)
    ensures forall d | d in dirs :: d < |s0.m| && View(s.m, d) == View(s0.m, d)
    ensures forall d, i | d in dirs && d != src && 0 <= i < WORDS ::
      d < |s0.m| && dest < |s.m| && src < |s0.m| && (Shares(s.m, d, dest, i) <==> Shares(s0.m, d, src, i))
  {
    hide View, Apart, WellFormed, SharesSame;
    CloneExtends(s0, s, src, dest);
    ExtensionKeepsFamily(s0, s, dirs);
    CloneIsApart(s0, s, src, dest);
    ApartSym(s, src, dest);
    assert dest !in dirs by {
      if dest in dirs {
        InFamily(s0, dirs, dest);
        NewIsUnused(s0, s, src, dest);
      }
    }
    forall d | d in dirs && d != src
      ensures Apart(s, d, dest) && Apart(s, dest, d)
      ensures forall i | 0 <= i < WORDS ::
        d < |s0.m| && dest < |s.m| && src < |s0.m| && (Shares(s.m, d, dest, i) <==> Shares(s0.m, d, src, i))
    {
      FamilyApart(s0, dirs, d, src);
      CloneApartFromOther(s0, s, src, dest, d);
      ApartSym(s, d, dest);
    }
  }

  lemma {:induction false} CloneExtends(s0: Machine, s: Machine, src: nat, dest: nat)
    requires IsClone(s0, s, src, dest)
    ensures Extends(s0, s) && WellFormed(s, dest) && src < |s0.m| == |s.m| && dest < |s.m|
  {}

  lemma {:induction false} NewIsUnused(s0: Machine, s: Machine, src: nat, dest: nat)
    requires IsClone(s0, s, src, dest)
    ensures !WellFormed(s0, dest)
  {}

  // ---------------------------------------------------------------- runs

  /** A call through one of the directories. */
  datatype Via = Via(dir: nat, call: Call)

  /** The call goes through d itself or through a table d shares with the directory it names. */
  predicate Sees(m: seq<Frame>, d: nat, c: Via)
    requires d < |m| && c.dir < |m|
  {
    c.dir == d || SharesPage(m, c.dir, d, PageOf(c.call))
  }

  /** What one call does to the map of a directory d of the family. */
  lemma {:induction false} CallSeen(s: Machine, dirs: set<nat>, c: Via, d: nat)
    requires Family(s, dirs) && c.dir in dirs && d in dirs
    ensures WellFormed(s, c.dir) && c.dir < |s.m| && d < |s.m|
    ensures var Outcome(s', ok) := Step(s, c.dir, c.call);
      && WellFormed(s', d)
      && View(s'.m, d) == if ok && Sees(s.m, d, c) then Applied(View(s.m, d), c.call) else View(s.m, d)
  {
    hide View, Apart, WellFormed, Step, Applied, Confined, SlotGrows;
    InFamily(s, dirs, d);
    InFamily(s, dirs, c.dir);
    if d == c.dir {
      StepFacts(s, d, c.call);
    } else {
      FamilyApart(s, dirs, c.dir, d);
      StepSeen(s, c.dir, d, c.call);
    }
  }

  /** Two directories stay apart under a call through any directory of the family. */
  lemma {:induction false} CallKeepsApart(s: Machine, dirs: set<nat>, c: Via, a: nat, b: nat)
    requires Family(s, dirs) && c.dir in dirs && a in dirs && b in dirs && a != b && b != c.dir
    ensures WellFormed(s, c.dir) && a < |s.m| && b < |s.m| && |Step(s, c.dir, c.call).s.m| == |s.m|
    ensures Apart(Step(s, c.dir, c.call).s, a, b) && SharesSame(s.m, Step(s, c.dir, c.call).s.m, a, b)
  {
    hide View, Apart, WellFormed, Step, Applied, Family, SlotGrows;
    InFamily(s, dirs, c.dir);
    CallSeen(s, dirs, c, a);
    CallSeen(s, dirs, c, b);
    StepFacts(s, c.dir, c.call);
    FamilyApart(s, dirs, a, b);
    FamilyApart(s, dirs, c.dir, b);
    var s' := Step(s, c.dir, c.call).s;
    var slot := PageOf(c.call) / 1024;
    OtherFrames(s, s', c.dir, b, slot);
    if a == c.dir {
      CallerStaysApart(s, s', a, b, slot);
    } else {
      FamilyApart(s, dirs, c.dir, a);
      OtherFrames(s, s', c.dir, a, slot);
      OthersStayApart(s, s', a, b);
    }
  }

  lemma {:induction false} CallKeepsFamily(s: Machine, dirs: set<nat>, c: Via)
    requires Family(s, dirs) && c.dir in dirs
    ensures WellFormed(s, c.dir) && Family(Step(s, c.dir, c.call).s, dirs)
    ensures SameSharing(s, Step(s, c.dir, c.call).s, dirs)
  {
    hide View, Apart, WellFormed, Step, Confined, SlotGrows;
    InFamily(s, dirs, c.dir);
    StepFacts(s, c.dir, c.call);
    var s' := Step(s, c.dir, c.call).s;
    forall d | d in dirs
      ensures WellFormed(s', d) && d < |s.m|
    {
      CallSeen(s, dirs, c, d);
    }
    SameSize(s, c.dir, c.call);
    forall a, b | a in dirs && b in dirs && a != b
      ensures Apart(s', a, b) && SharesSame(s.m, s'.m, a, b)
    {
      if b != c.dir {
        CallKeepsApart(s, dirs, c, a, b);
      } else {
        CallKeepsApart(s, dirs, c, b, a);
        ApartSym(s', b, a);
        SharesSym(s.m, s'.m, b, a);
      }
    }
  }

  lemma {:induction false} SharesSym(m: seq<Frame>, m': seq<Frame>, a: nat, b: nat)
    requires a < |m| == |m'| && b < |m| && SharesSame(m, m', a, b)
    ensures SharesSame(m, m', b, a)
  {
    forall i | 0 <= i < WORDS
      ensures Shares(m', b, a, i) <==> Shares(m, b, a, i)
    {
      assert Shares(m', a, b, i) <==> Shares(m, a, b, i);
    }
  }

  lemma {:induction false} SameSize(s: Machine, dir: nat, c: Call)
    requires WellFormed(s, dir)
    ensures |Step(s, dir, c).s.m| == |s.m|
  {
    hide View, WellFormed, Step;
    StepFacts(s, dir, c);
  }

  /** A run of calls, each through a directory of the family. */
  ghost function RunAll(s: Machine, dirs: set<nat>, calls: seq<Via>): (h: History)
    requires Family(s, dirs) && forall c | c in calls :: c.dir in dirs
    ensures Family(h.s, dirs) && |h.oks| == |calls|
  {
    if calls == [] then History(s, [])
    else
      var c := calls[|calls| - 1];
      var before := RunAll(s, dirs, calls[..|calls| - 1]);
      CallKeepsFamily(before.s, dirs, c);
      var after := Step(before.s, c.dir, c.call);
      History(after.s, before.oks + [after.ok])
  }

  /** On an ordinary finite map: those successful calls that d sees, in the tables m of the start. */
  function SeenRun(m: seq<Frame>, f: map<nat, Mapping>, d: nat, calls: seq<Via>, oks: seq<bool>): map<nat, Mapping>
    requires |calls| == |oks| && d < |m| && forall c | c in calls :: c.dir < |m|
  {
    if calls == [] then f
    else
      var n := |calls| - 1;
      var g := SeenRun(m, f, d, calls[..n], oks[..n]);
      if oks[n] && Sees(m, d, calls[n]) then Applied(g, calls[n].call) else g
  }

  lemma {:induction false} SharingTransitive(s: Machine, s1: Machine, s2: Machine, dirs: set<nat>)
    requires SameSharing(s, s1, dirs) && SameSharing(s1, s2, dirs)
    ensures SameSharing(s, s2, dirs)
  {
    forall a, b | a in dirs && b in dirs && a != b
      ensures SharesSame(s.m, s2.m, a, b)
    {
      assert SharesSame(s.m, s1.m, a, b) && SharesSame(s1.m, s2.m, a, b);
    }
  }

  lemma {:induction false} RunKeepsSharing(s: Machine, dirs: set<nat>, calls: seq<Via>)
    requires Family(s, dirs) && forall c | c in calls :: c.dir in dirs
    ensures SameSharing(s, RunAll(s, dirs, calls).s, dirs)
  {
    hide Family, Step, Shares, WellFormed;
    if calls == [] {
      assert RunAll(s, dirs, calls).s == s;
      forall d | d in dirs
        ensures d < |s.m|
      {
        InFamily(s, dirs, d);
      }
    } else {
      var before := RunAll(s, dirs, calls[..|calls| - 1]);
      RunKeepsSharing(s, dirs, calls[..|calls| - 1]);
      CallKeepsFamily(before.s, dirs, calls[|calls| - 1]);
      SharingTransitive(s, before.s, RunAll(s, dirs, calls).s, dirs);
    }
  }

  /** Over every run of map and unmap calls through any of the directories, each directory denotes
      the finite map that its own successful calls and those through its shared tables produce. */
  lemma {:induction false} EachSeesItsCalls(s: Machine, dirs: set<nat>, calls: seq<Via>, d: nat)
    requires Family(s, dirs) && d in dirs && forall c | c in calls :: c.dir in dirs
    ensures forall x | x in dirs :: x < |s.m| == |RunAll(s, dirs, calls).s.m|
    ensures View(RunAll(s, dirs, calls).s.m, d)
      == SeenRun(s.m, View(s.m, d), d, calls, RunAll(s, dirs, calls).oks)
  {
    hide Family, Step, Shares, WellFormed, View, Applied;
    RunKeepsSharing(s, dirs, calls);
    if calls != [] {
      var n := |calls| - 1;
      var c := calls[n];
      var before := RunAll(s, dirs, calls[..n]);
      EachSeesItsCalls(s, dirs, calls[..n], d);
      RunKeepsSharing(s, dirs, calls[..n]);
      CallSeen(before.s, dirs, c, d);
      assert c.dir != d ==> SharesSame(s.m, before.s.m, c.dir, d);
      assert RunAll(s, dirs, calls).oks[..n] == before.oks;
    }
  }

  // ---------------------------------------------------------------- the user half, the shared half

  /** The calls of a run that go through d, and their success flags. */
  function OwnCalls(calls: seq<Via>, d: nat): seq<Call> {
    if calls == [] then []
    else
      var n := |calls| - 1;
      OwnCalls(calls[..n], d) + if calls[n].dir == d then [calls[n].call] else []
  }

  function OwnOks(calls: seq<Via>, oks: seq<bool>, d: nat): (r: seq<bool>)
    requires |calls| == |oks|
    ensures |r| == |OwnCalls(calls, d)|
  {
    if calls == [] then []
    else
      var n := |calls| - 1;
      OwnOks(calls[..n], oks[..n], d) + if calls[n].dir == d then [oks[n]] else []
  }

  /** The two maps agree below 3 GB. */
  ghost predicate SameBelow(f: map<nat, Mapping>, g: map<nat, Mapping>) {
    forall p | 0 <= p < 0xC_0000 :: (p in f <==> p in g) && (p in f ==> f[p] == g[p])
  }

  lemma {:induction false} OwnStep(f: map<nat, Mapping>, calls: seq<Via>, oks: seq<bool>, d: nat)
    requires |calls| == |oks| > 0
    ensures var n := |calls| - 1;
      var g := MapRun(f, OwnCalls(calls[..n], d), OwnOks(calls[..n], oks[..n], d));
      var r := MapRun(f, OwnCalls(calls, d), OwnOks(calls, oks, d));
      if calls[n].dir == d && (oks[n] || calls[n].call.Unmap?) then r == Applied(g, calls[n].call) else r == g
  {
    var n := |calls| - 1;
    var cs, os := OwnCalls(calls[..n], d), OwnOks(calls[..n], oks[..n], d);
    if calls[n].dir == d {
      assert (cs + [calls[n].call])[..|cs|] == cs && (os + [oks[n]])[..|cs|] == os;
    } else {
      assert OwnCalls(calls, d) == cs && OwnOks(calls, oks, d) == os;
    }
  }

  lemma {:induction false} FailedUnmap(s: Machine, dir: nat, c: Call)
    requires WellFormed(s, dir) && c.Unmap? && !Step(s, dir, c).ok
    ensures dir < |s.m| && PageOf(c) !in View(s.m, dir)
  {
    UnmapPageRefines(s, dir, PageOf(c));
  }

  /** A change of one page: the same below 3 GB on both maps, none below it when the page is above. */
  lemma {:induction false} AppliedBelow(f: map<nat, Mapping>, g: map<nat, Mapping>, c: Call)
    requires SameBelow(f, g)
    ensures SameBelow(Applied(f, c), Applied(g, c))
    ensures PageOf(c) >= 0xC_0000 ==> SameBelow(Applied(f, c), g) && SameBelow(f, Applied(g, c))
    ensures c.Unmap? && PageOf(c) !in f ==> SameBelow(f, Applied(g, c))
  {}

  /** Below 3 GB every directory denotes the run of its own calls alone: whatever is mapped or
      unmapped through the others stays invisible. */
  lemma {:induction false} UserHalfIsPrivate(s: Machine, dirs: set<nat>, calls: seq<Via>, d: nat)
    requires Family(s, dirs) && d in dirs && forall c | c in calls :: c.dir in dirs
    ensures d < |s.m| == |RunAll(s, dirs, calls).s.m|
    ensures SameBelow(View(RunAll(s, dirs, calls).s.m, d),
              MapRun(View(s.m, d), OwnCalls(calls, d), OwnOks(calls, RunAll(s, dirs, calls).oks, d)))
  {
    hide Family, Step, WellFormed, View, Applied, SameBelow, MapRun, OwnCalls, OwnOks;
    EachSeesItsCalls(s, dirs, calls, d);
    var h := RunAll(s, dirs, calls);
    var own := MapRun(View(s.m, d), OwnCalls(calls, d), OwnOks(calls, h.oks, d));
    if calls == [] {
      NoCallsBelow(View(s.m, d), d);
    } else {
      var n := |calls| - 1;
      var c := calls[n];
      var before := RunAll(s, dirs, calls[..n]);
      UserHalfIsPrivate(s, dirs, calls[..n], d);
      CallSeen(before.s, dirs, c, d);
      assert h.oks[..n] == before.oks;
      OwnStep(View(s.m, d), calls, h.oks, d);
      var was := MapRun(View(s.m, d), OwnCalls(calls[..n], d), OwnOks(calls[..n], before.oks, d));
      AppliedBelow(View(before.s.m, d), was, c.call);
      if c.dir == d && !h.oks[n] && c.call.Unmap? {
        FailedUnmap(before.s, d, c.call);
      }
    }
  }

  lemma {:induction false} NoCallsBelow(f: map<nat, Mapping>, d: nat)
    ensures SameBelow(f, MapRun(f, OwnCalls([], d), OwnOks([], [], d)))
  {}

  /** A page of a table two directories shared at the start has one translation in both, whatever
      the calls. */
  lemma {:induction false} SharedHalfIsCommon(s: Machine, dirs: set<nat>, calls: seq<Via>, a: nat, b: nat, page: nat)
    requires Family(s, dirs) && a in dirs && b in dirs && a != b && page < PAGES
    requires forall c | c in calls :: c.dir in dirs
    requires a < |s.m| && b < |s.m| && SharesPage(s.m, a, b, page)
    ensures var m := RunAll(s, dirs, calls).s.m;
      a < |m| && b < |m| && EntryAt(m, a, page) == EntryAt(m, b, page)
  {
    hide Family, Step, WellFormed;
    RunKeepsSharing(s, dirs, calls);
    assert SharesSame(s.m, RunAll(s, dirs, calls).s.m, a, b);
  }

  // ---------------------------------------------------------------- freeing a member

  /** vmm_free_directory gives the tables of every slot back, the shared kernel tables included: the
      other directory survives if and only if the two share no table. */
  lemma {:induction false} FreeSparesExactly(s: Machine, a: nat, b: nat, v: Bitmap)
    requires Apart(s, a, b) && b < |s.m| && |v| == |s.v|
    requires forall f | 0 <= f < |v| :: v[f] <==> s.v[f] && f != b && !IsTable(s.m, b, WORDS, f)
    ensures a < |s.m|
    ensures WellFormed(Machine(s.m, v), a) <==> forall i | 0 <= i < WORDS :: !Shares(s.m, a, b, i)
  {
    hide View;
    var s' := Machine(s.m, v);
    ApartParts(s, a, b);
    forall i | 0 <= i < WORDS
      ensures TableOk(s', a, i) <==> !Shares(s.m, a, b, i)
    {
      TableFreedExactly(s, a, b, i);
    }
    DirectoryNoTable(s, a, b);
  }

  lemma {:induction false} DirectoryNoTable(s: Machine, a: nat, b: nat)
    requires Apart(s, a, b)
    ensures b < |s.m| && !IsTable(s.m, b, WORDS, a) && !IsTable(s.m, b, WORDS, 0)
  {
    hide View, TablesDistinct;
    forall j | 0 <= j < WORDS
      ensures Present(s.m[b][j]) ==> TableAt(s.m, b, j) != a && TableAt(s.m, b, j) != 0
    {
      assert AvoidsDirectory(s.m, b, a, j) && TableOk(s, b, j);
    }
  }

  /** Slot i of a names a table of b only if the slot is shared. */
  lemma {:induction false} TableFreedExactly(s: Machine, a: nat, b: nat, i: nat)
    requires Apart(s, a, b) && i < WORDS
    ensures a < |s.m| && b < |s.m| && TableOk(s, a, i) && AvoidsDirectory(s.m, a, b, i)
    ensures Shares(s.m, a, b, i) <==> Present(s.m[a][i]) && IsTable(s.m, b, WORDS, TableAt(s.m, a, i))
  {
    hide View, TablesDistinct;
    if Present(s.m[a][i]) && IsTable(s.m, b, WORDS, TableAt(s.m, a, i)) {
      var j :| 0 <= j < WORDS && Present(s.m[b][j]) && TableAt(s.m, b, j) == TableAt(s.m, a, i);
      assert SlotsApart(s.m, a, b, i, j);
    }
    if Shares(s.m, a, b, i) {
      assert TableAt(s.m, b, i) == TableAt(s.m, a, i);
    }
  }

  /** So once the source of a clone has a kernel page mapped, freeing the clone frees one of the
      source's own tables under it. */
  lemma {:induction false} FreedCloneBreaksSource(s0: Machine, s: Machine, src: nat, dest: nat, v: Bitmap, page: nat)
    requires IsClone(s0, s, src, dest) && dest < |s.m| && |v| == |s.v|
    requires forall f | 0 <= f < |v| :: v[f] <==> s.v[f] && f != dest && !IsTable(s.m, dest, WORDS, f)
    requires src < |s.m| && page in View(s.m, src) && page >= 0xC_0000
    ensures !WellFormed(Machine(s.m, v), src)
    ensures TableAt(s.m, src, page / 1024) < |v| && !v[TableAt(s.m, src, page / 1024)]
  {
    hide WellFormed, IsClone, Apart;
    CloneIsApart(s0, s, src, dest);
    FreeSparesExactly(s, src, dest, v);
    assert Present(s.m[src][page / 1024]);
    assert Shares(s.m, src, dest, page / 1024);
    TableFreedExactly(s, src, dest, page / 1024);
    ApartParts(s, src, dest);
    TableInRange(s, src, page / 1024);
  }

  lemma {:induction false} TableInRange(s: Machine, a: nat, i: nat)
    requires WellFormed(s, a) && i < WORDS && Present(s.m[a][i])
    ensures TableAt(s.m, a, i) < |s.m|
  {
    assert TableOk(s, a, i);
  }
}
