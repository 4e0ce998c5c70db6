/** vmm_clone_directory on values: what a finished clone is, and the invariant of the copy loops.
    Slots 0..767 of a directory are user space; slots 768..1023 are the shared kernel half. */
module Clone {
  import opened Bits
  import opened Bitmaps
  import opened PageTables

  const KERNEL: nat := 768

  predicate IsCopied(e: u32) {
    Present(e) && Writable(e)
  }

  /** Every frame the clone must copy exists and is marked used. */
  ghost predicate SourcesUsed(s: Machine, src: nat)
    requires src < |s.m| == |s.v|
  {
    forall i, j | 0 <= i < KERNEL && 0 <= j < WORDS && IsCopied(Cell(s.m, src, i, j)) ::
      FrameOf(Cell(s.m, src, i, j)) < |s.m| && s.v[FrameOf(Cell(s.m, src, i, j))]
  }

  /** s differs from s0 only in frames that s0 had free. */
  ghost predicate Extends(s0: Machine, s: Machine) {
    && |s.m| == |s0.m| == |s.v| == |s0.v|
    && forall f | 0 <= f < |s0.v| && s0.v[f] :: s.v[f] && s.m[f] == s0.m[f]
  }

  /** What a frame allocated by the clone is for. */
  datatype Use = Directory | Table(i: nat) | Copy(i: nat, j: nat)

  type Owner = map<nat, Use>

  ghost predicate Accounts(s0: Machine, s: Machine, owner: Owner) {
    && |s.v| == |s0.v| == |s.m|
    && (forall f | f in owner :: 0 < f < |s.v| && !s0.v[f])
    && (forall f | 0 <= f < |s.v| :: s.v[f] <==> s0.v[f] || f in owner)
    && Count(s.v) == Count(s0.v) + |owner|
  }

  /** The first n slots of dest are set up. */
  ghost predicate SlotOk(s0: Machine, m: seq<Frame>, src: nat, dest: nat, owner: Owner, n: nat, k: nat)
    requires src < |s0.m| == |m| && dest < |m| && k < WORDS
  {
    if k >= n || !Present(s0.m[src][k]) then m[dest][k] == 0
    else if k >= KERNEL then m[dest][k] == s0.m[src][k]
    else
      Present(m[dest][k]) && TableAt(m, dest, k) in owner && owner[TableAt(m, dest, k)] == Table(k)
  }

  /** One page is cloned: absent, shared read-only, or copied to a frame of its own. */
  ghost predicate CellOk(s0: Machine, m: seq<Frame>, src: nat, dest: nat, owner: Owner, i: nat, j: nat)
    requires src < |s0.m| == |m| && dest < |m| && i < WORDS && j < WORDS
  {
    var e0, e := Cell(s0.m, src, i, j), Cell(m, dest, i, j);
    if !Present(e0) then e == 0
    else if Writable(e0) then
      && FlagsOf(e) == FlagsOf(e0)
      && FrameOf(e) in owner && owner[FrameOf(e)] == Copy(i, j)
      && SameContent(s0.m, FrameOf(e0), m, FrameOf(e))
    else e == e0
  }

  predicate SameContent(m0: seq<Frame>, f0: nat, m: seq<Frame>, f: nat) {
    f0 < |m0| && f < |m| && m[f] == m0[f0]
  }

  /** n slots are set up and, in the last of them, jj cells. */
  ghost predicate Progress(s0: Machine, s: Machine, src: nat, dest: nat, owner: Owner, n: nat, jj: nat) {
    && WellFormed(s0, src) && Extends(s0, s) && Accounts(s0, s, owner)
    && dest in owner && owner[dest] == Directory
    && n <= WORDS && jj <= WORDS
    && UsesOk(s0.m, s.m, src, dest, owner)
    && SlotsOk(s0, s.m, src, dest, owner, n)
    && CellsOk(s0, s.m, src, dest, owner, n, jj)
  }

  /** The record of uses names the directory, the tables and the copies correctly. */
  ghost predicate UsesOk(m0: seq<Frame>, m: seq<Frame>, src: nat, dest: nat, owner: Owner)
    requires dest < |m| && src < |m0|
  {
    forall f | f in owner :: UseOk(m0, m, src, dest, f, owner[f])
  }

  predicate UseOk(m0: seq<Frame>, m: seq<Frame>, src: nat, dest: nat, f: nat, use: Use)
    requires dest < |m| && src < |m0|
  {
    match use
    case Directory => f == dest
    case Table(k) => k < WORDS && Present(m[dest][k]) && TableAt(m, dest, k) == f
    case Copy(i, j) =>
      i < KERNEL && j < WORDS && IsCopied(Cell(m0, src, i, j)) && FrameOf(Cell(m, dest, i, j)) == f
  }

  ghost predicate SlotsOk(s0: Machine, m: seq<Frame>, src: nat, dest: nat, owner: Owner, n: nat)
    requires src < |s0.m| == |m| && dest < |m|
  {
    forall k | 0 <= k < WORDS :: SlotOk(s0, m, src, dest, owner, n, k)
  }

  ghost predicate CellsOk(s0: Machine, m: seq<Frame>, src: nat, dest: nat, owner: Owner, n: nat, jj: nat)
    requires src < |s0.m| == |m| && dest < |m| && n <= WORDS
  {
    forall i, j | 0 <= i < n && i < KERNEL && 0 <= j < WORDS ::
      if i < n - 1 || j < jj then CellOk(s0, m, src, dest, owner, i, j) else Cell(m, dest, i, j) == 0
  }

  lemma {:induction false} SlotTableKnown(s0: Machine, s: Machine, src: nat, dest: nat, owner: Owner, n: nat, jj: nat,
                                          k: nat)
    requires Progress(s0, s, src, dest, owner, n, jj) && k < WORDS && Present(s.m[dest][k])
    ensures Present(s0.m[src][k]) && k < n
    ensures var t := TableAt(s.m, dest, k);
      0 < t < |s.m| && s.v[t] && t != dest
      && (if k < KERNEL then t in owner && owner[t] == Table(k) && !s0.v[t]
          else t == TableAt(s0.m, src, k) && s0.v[t] && t !in owner)
  {
    assert SlotOk(s0, s.m, src, dest, owner, n, k);
    assert TableOk(s0, src, k);
  }

  /** The cell a copy was made for is finished and holds that copy. */
  lemma {:induction false} UsedCell(s0: Machine, s: Machine, src: nat, dest: nat, owner: Owner, n: nat, jj: nat, f: nat)
    requires Progress(s0, s, src, dest, owner, n, jj) && f in owner && owner[f].Copy?
    ensures var Copy(a, b) := owner[f];
      && a < KERNEL && b < WORDS && a < n && (a < n - 1 || b < jj)
      && Present(s.m[dest][a]) && TableAt(s.m, dest, a) < |s.m| && TableAt(s.m, dest, a) in owner
      && owner[TableAt(s.m, dest, a)] == Table(a)
      && CellOk(s0, s.m, src, dest, owner, a, b)
  {
    var Copy(a, b) := owner[f];
    assert UseOk(s0.m, s.m, src, dest, f, owner[f]);
    SlotTableKnown(s0, s, src, dest, owner, n, jj, a);
    assert a < n - 1 || b < jj ==> CellOk(s0, s.m, src, dest, owner, a, b);
  }

  lemma {:induction false} ProgressWellFormed(s0: Machine, s: Machine, src: nat, dest: nat, owner: Owner, n: nat,
                                              jj: nat)
    requires Progress(s0, s, src, dest, owner, n, jj)
    ensures WellFormed(s, dest)
  {
    forall k | 0 <= k < WORDS
      ensures TableOk(s, dest, k)
    {
      if Present(s.m[dest][k]) {
        SlotTableKnown(s0, s, src, dest, owner, n, jj, k);
      }
    }
    forall i, j | 0 <= i < j < WORDS && Present(s.m[dest][i]) && Present(s.m[dest][j])
      ensures TableAt(s.m, dest, i) != TableAt(s.m, dest, j)
    {
      SlotTableKnown(s0, s, src, dest, owner, n, jj, i);
      SlotTableKnown(s0, s, src, dest, owner, n, jj, j);
      if i >= KERNEL {
        DistinctTables(s0, src, i, j);
      }
    }
  }

  /** The source directory and its tables are untouched. */
  lemma {:induction false} SourceUnchanged(s0: Machine, s: Machine, src: nat)
    requires WellFormed(s0, src) && Extends(s0, s)
    ensures s.m[src] == s0.m[src] && WellFormed(s, src) && View(s.m, src) == View(s0.m, src)
    ensures forall i, j | 0 <= i < WORDS && 0 <= j < WORDS :: Cell(s.m, src, i, j) == Cell(s0.m, src, i, j)
  {
    forall i | 0 <= i < WORDS
      ensures TableOk(s, src, i)
      ensures Present(s0.m[src][i]) ==> SameFrame(s0.m, s.m, TableAt(s0.m, src, i))
    {
      assert TableOk(s0, src, i);
    }
    ViewLocal(s0, s.m, src);
  }

  lemma {:induction false} Allocated(s0: Machine, s: Machine, owner: Owner, f: nat, use: Use, m': seq<Frame>)
    requires Accounts(s0, s, owner) && f < |s.v| && !s.v[f] && f > 0 && |m'| == |s.m|
    ensures Accounts(s0, Machine(m', s.v[f := true]), owner[f := use])
    ensures !s0.v[f] && f !in owner && |owner[f := use]| == |owner| + 1
  {
    CountUpdate(s.v, f, true);
    assert owner[f := use].Keys == owner.Keys + {f};
    assert |owner[f := use]| == |owner[f := use].Keys| && |owner| == |owner.Keys|;
  }

  lemma {:induction false} Start(s0: Machine, src: nat, dest: nat)
    requires WellFormed(s0, src) && Search(s0.v, 1, 0) == dest > 0
    ensures var s := Machine(s0.m[dest := Zeroed()], s0.v[dest := true]);
      Progress(s0, s, src, dest, map[dest := Directory], 0, WORDS)
  {
    assert FreeRun(s0.v, dest, 1) && !s0.v[dest];
    Allocated(s0, s0, map[], dest, Directory, s0.m[dest := Zeroed()]);
    assert map[dest := Directory] == map[][dest := Directory];
  }

  lemma {:induction false} SkipSlot(s0: Machine, s: Machine, src: nat, dest: nat, owner: Owner, i: nat)
    requires Progress(s0, s, src, dest, owner, i, WORDS) && i < WORDS && !Present(s0.m[src][i])
    ensures Progress(s0, s, src, dest, owner, i + 1, WORDS)
  {
    hide TablesDistinct, TableOk, UsesOk;
    var n := i + 1;
    forall k | 0 <= k < WORDS
      ensures SlotOk(s0, s.m, src, dest, owner, n, k)
    {
      assert SlotOk(s0, s.m, src, dest, owner, i, k);
    }
    forall a, j | 0 <= a < n && a < KERNEL && 0 <= j < WORDS
      ensures CellOk(s0, s.m, src, dest, owner, a, j)
    {
      assert a < i ==> CellOk(s0, s.m, src, dest, owner, a, j);
      assert SlotOk(s0, s.m, src, dest, owner, n, i);
    }
  }

  /** A write to dest's own directory frame leaves the finished cells alone. */
  lemma {:induction false} KernelSlot(s0: Machine, s: Machine, src: nat, dest: nat, owner: Owner, i: nat)
    requires Progress(s0, s, src, dest, owner, i, WORDS) && KERNEL <= i < WORDS && Present(s0.m[src][i])
    ensures Progress(s0, Machine(SetEntry(s.m, dest, i, s0.m[src][i]), s.v), src, dest, owner, i + 1, WORDS)
  {
    var m' := SetEntry(s.m, dest, i, s0.m[src][i]);
    var n := i + 1;
    assert SlotOk(s0, s.m, src, dest, owner, i, i);
    forall f | f in owner
      ensures UseOk(s0.m, m', src, dest, f, owner[f])
    {
      assert UseOk(s0.m, s.m, src, dest, f, owner[f]);
      if owner[f].Copy? {
        UsedCell(s0, s, src, dest, owner, i, WORDS, f);
      }
    }
    forall k | 0 <= k < WORDS
      ensures SlotOk(s0, m', src, dest, owner, n, k)
    {
      assert SlotOk(s0, s.m, src, dest, owner, i, k);
    }
    forall a, j | 0 <= a < KERNEL && 0 <= j < WORDS
      ensures CellOk(s0, m', src, dest, owner, a, j)
    {
      assert CellOk(s0, s.m, src, dest, owner, a, j);
      if Present(s.m[dest][a]) {
        SlotTableKnown(s0, s, src, dest, owner, i, WORDS, a);
      }
      CellSurvives(s0, s, src, dest, owner, i, WORDS, a, j, m');
    }
  }

  /** A cell keeps its state while its table, its copy and dest's slot are not written. */
  lemma {:induction false} CellSurvives(s0: Machine, s: Machine, src: nat, dest: nat, owner: Owner, n: nat, jj: nat,
                     a: nat, j: nat, m': seq<Frame>)
    requires Progress(s0, s, src, dest, owner, n, jj) && a < n && a < KERNEL && j < WORDS
    requires |m'| == |s.m| && m'[dest][a] == s.m[dest][a]
    requires Present(s.m[dest][a]) ==>
      TableAt(s.m, dest, a) < |s.m| && m'[TableAt(s.m, dest, a)][j] == s.m[TableAt(s.m, dest, a)][j]
    requires forall f | f in owner && owner[f] == Copy(a, j) :: SameFrame(s.m, m', f)
    ensures Cell(m', dest, a, j) == Cell(s.m, dest, a, j)
    ensures CellOk(s0, s.m, src, dest, owner, a, j) ==> CellOk(s0, m', src, dest, owner, a, j)
  {
  }

  lemma {:induction false} EmptySlot(s0: Machine, s: Machine, src: nat, dest: nat, owner: Owner, i: nat)
    requires Progress(s0, s, src, dest, owner, i, WORDS) && i < WORDS
    ensures s.m[dest][i] == 0
  {
    assert SlotOk(s0, s.m, src, dest, owner, i, i);
  }

  /** s with a fresh zeroed table in frame t, hooked into slot i of dest. */
  function Hooked(s: Machine, dest: nat, i: nat, t: nat): Machine
    requires dest < |s.m| == |s.v| <= PAGES && i < WORDS && t < |s.m|
  {
    Machine(SetEntry(s.m[t := Zeroed()], dest, i, Entry(t, NEW_TABLE_FLAGS)), s.v[t := true])
  }

  lemma {:induction false} CopyKeptByTable(s0: Machine, s: Machine, src: nat, dest: nat, owner: Owner, i: nat, t: nat,
                                           f: nat)
    requires Progress(s0, s, src, dest, owner, i, WORDS) && i < KERNEL && t < |s.m| && !s.v[t] && t != dest
    requires f in owner && owner[f].Copy?
    ensures var Copy(a, b) := owner[f];
      a < KERNEL && b < WORDS && Cell(Hooked(s, dest, i, t).m, dest, a, b) == Cell(s.m, dest, a, b)
  {
    hide TablesDistinct, TableOk, CellOk, CellsOk, SlotsOk, UsesOk;
    UsedCell(s0, s, src, dest, owner, i, WORDS, f);
  }

  lemma {:induction false} NewTableUses(s0: Machine, s: Machine, src: nat, dest: nat, owner: Owner, i: nat, t: nat)
    requires Progress(s0, s, src, dest, owner, i, WORDS) && i < KERNEL && t < |s.m| && !s.v[t] && t != dest
    ensures UsesOk(s0.m, Hooked(s, dest, i, t).m, src, dest, owner[t := Table(i)])
  {
    hide TablesDistinct, TableOk, CellOk, CellsOk, SlotsOk, Cell;
    var m' := Hooked(s, dest, i, t).m;
    EmptySlot(s0, s, src, dest, owner, i);
    forall f | f in owner && f != t
      ensures UseOk(s0.m, m', src, dest, f, owner[f])
    {
      assert UseOk(s0.m, s.m, src, dest, f, owner[f]);
      if owner[f].Copy? {
        CopyKeptByTable(s0, s, src, dest, owner, i, t, f);
      }
    }
  }

  lemma {:induction false} NewTableCells(s0: Machine, s: Machine, src: nat, dest: nat, owner: Owner, i: nat, t: nat)
    requires Progress(s0, s, src, dest, owner, i, WORDS) && i < KERNEL && Present(s0.m[src][i])
    requires t < |s.m| && !s.v[t] && t != dest && t !in owner
    ensures SlotsOk(s0, Hooked(s, dest, i, t).m, src, dest, owner[t := Table(i)], i + 1)
    ensures CellsOk(s0, Hooked(s, dest, i, t).m, src, dest, owner[t := Table(i)], i + 1, 0)
  {
    hide TablesDistinct, TableOk, UsesOk;
    var m' := Hooked(s, dest, i, t).m;
    var owner' := owner[t := Table(i)];
    var n := i + 1;
    forall k | 0 <= k < WORDS
      ensures SlotOk(s0, m', src, dest, owner', n, k)
    {
      assert SlotOk(s0, s.m, src, dest, owner, i, k);
    }
    forall a, j | 0 <= a < i && 0 <= j < WORDS
      ensures CellOk(s0, m', src, dest, owner', a, j)
    {
      assert CellOk(s0, s.m, src, dest, owner, a, j);
      if Present(s.m[dest][a]) {
        SlotTableKnown(s0, s, src, dest, owner, i, WORDS, a);
      }
      CellSurvives(s0, s, src, dest, owner, i, WORDS, a, j, m');
    }
  }

  lemma {:induction false} NewTable(s0: Machine, s: Machine, src: nat, dest: nat, owner: Owner, i: nat, t: nat)
    requires Progress(s0, s, src, dest, owner, i, WORDS) && i < KERNEL && Present(s0.m[src][i])
    requires Search(s.v, 1, 0) == t > 0
    ensures Progress(s0, WithTable(s, dest, i), src, dest, owner[t := Table(i)], i + 1, 0)
    ensures |owner[t := Table(i)]| == |owner| + 1
  {
    hide TablesDistinct, TableOk, UsesOk, CellsOk;
    assert SlotOk(s0, s.m, src, dest, owner, i, i);
    assert FreeRun(s.v, t, 1) && !s.v[t];
    assert WithTable(s, dest, i) == Hooked(s, dest, i, t);
    Allocated(s0, s, owner, t, Table(i), Hooked(s, dest, i, t).m);
    NewTableUses(s0, s, src, dest, owner, i, t);
    NewTableCells(s0, s, src, dest, owner, i, t);
  }

  lemma {:induction false} SkipCell(s0: Machine, s: Machine, src: nat, dest: nat, owner: Owner, i: nat, j: nat)
    requires Progress(s0, s, src, dest, owner, i + 1, j) && i < KERNEL && j < WORDS && !Present(Cell(s0.m, src, i, j))
    ensures Progress(s0, s, src, dest, owner, i + 1, j + 1)
  {
    hide TablesDistinct, TableOk, UsesOk, SlotsOk;
    forall a, b | 0 <= a < i + 1 && 0 <= b < WORDS
      ensures if a < i || b < j + 1 then CellOk(s0, s.m, src, dest, owner, a, b) else Cell(s.m, dest, a, b) == 0
    {
      assert if a < i || b < j then CellOk(s0, s.m, src, dest, owner, a, b) else Cell(s.m, dest, a, b) == 0;
    }
  }

  lemma {:induction false} ShareCell(s0: Machine, s: Machine, src: nat, dest: nat, owner: Owner, i: nat, j: nat)
    requires Progress(s0, s, src, dest, owner, i + 1, j) && i < KERNEL && j < WORDS
    requires Present(Cell(s0.m, src, i, j)) && !Writable(Cell(s0.m, src, i, j))
    requires Present(s.m[dest][i]) && TableAt(s.m, dest, i) < |s.m|
    ensures var m' := SetEntry(s.m, TableAt(s.m, dest, i), j, Cell(s0.m, src, i, j));
      Progress(s0, Machine(m', s.v), src, dest, owner, i + 1, j + 1)
  {
    var t := TableAt(s.m, dest, i);
    var m' := SetEntry(s.m, t, j, Cell(s0.m, src, i, j));
    SlotTableKnown(s0, s, src, dest, owner, i + 1, j, i);
    CellsAfterWrite(s0, s, src, dest, owner, i, j, m', owner);
  }

  lemma {:induction false} CopyCell(s0: Machine, s: Machine, src: nat, dest: nat, owner: Owner, i: nat, j: nat, f: nat)
    requires Progress(s0, s, src, dest, owner, i + 1, j) && i < KERNEL && j < WORDS
    requires IsCopied(Cell(s0.m, src, i, j)) && FrameOf(Cell(s0.m, src, i, j)) < |s0.m|
    requires Search(s.v, 1, 0) == f > 0
    requires Present(s.m[dest][i]) && TableAt(s.m, dest, i) < |s.m|
    ensures var e := Cell(s0.m, src, i, j);
      var m' := SetEntry(s.m[f := s0.m[FrameOf(e)]], TableAt(s.m, dest, i), j, Entry(f, FlagsOf(e)));
      Progress(s0, Machine(m', s.v[f := true]), src, dest, owner[f := Copy(i, j)], i + 1, j + 1)
    ensures |owner[f := Copy(i, j)]| == |owner| + 1
  {
    hide TablesDistinct, TableOk, UsesOk, SlotsOk, CellsOk;
    var t := TableAt(s.m, dest, i);
    var e := Cell(s0.m, src, i, j);
    var m' := SetEntry(s.m[f := s0.m[FrameOf(e)]], t, j, Entry(f, FlagsOf(e)));
    SlotTableKnown(s0, s, src, dest, owner, i + 1, j, i);
    assert FreeRun(s.v, f, 1) && !s.v[f];
    Allocated(s0, s, owner, f, Copy(i, j), m');
    CellsAfterWrite(s0, s, src, dest, owner, i, j, m', owner[f := Copy(i, j)]);
  }

  /** The memory after cell (i, j) of dest was stored and possibly one new frame was filled. */
  ghost predicate CellWritten(s: Machine, dest: nat, owner: Owner, i: nat, j: nat, m': seq<Frame>, owner': Owner)
    requires dest < |s.m| && i < WORDS && j < WORDS
  {
    && |m'| == |s.m| && owner.Keys <= owner'.Keys
    && (forall f | f in owner :: owner'[f] == owner[f])
    && (forall f | f in owner' && f !in owner :: owner'[f] == Copy(i, j))
    && TableAt(s.m, dest, i) < |s.m|
    && (forall b | 0 <= b < WORDS && b != j :: m'[TableAt(s.m, dest, i)][b] == s.m[TableAt(s.m, dest, i)][b])
    && (forall f | f in owner && f < |m'| && f != TableAt(s.m, dest, i) :: m'[f] == s.m[f])
  }

  lemma {:induction false} UsesAfterWrite(s0: Machine, s: Machine, src: nat, dest: nat, owner: Owner, i: nat, j: nat,
                       m': seq<Frame>, owner': Owner)
    requires Progress(s0, s, src, dest, owner, i + 1, j) && i < KERNEL && j < WORDS && Present(s.m[dest][i])
    requires CellWritten(s, dest, owner, i, j, m', owner') && m'[dest] == s.m[dest]
    requires forall f | f in owner' && f !in owner ::
      IsCopied(Cell(s0.m, src, i, j)) && FrameOf(m'[TableAt(s.m, dest, i)][j]) == f
    ensures UsesOk(s0.m, m', src, dest, owner')
  {
    hide TablesDistinct, TableOk, Extends, SlotsOk, CellsOk, CellOk, SlotOk;
    forall f | f in owner'
      ensures UseOk(s0.m, m', src, dest, f, owner'[f])
    {
      if f in owner {
        assert UseOk(s0.m, s.m, src, dest, f, owner[f]);
        if owner[f].Copy? {
          CopySurvives(s0, s, src, dest, owner, i, j, m', owner', f);
        }
      } else {
        SlotTableKnown(s0, s, src, dest, owner, i + 1, j, i);
      }
    }
  }

  lemma {:induction false} CopySurvives(s0: Machine, s: Machine, src: nat, dest: nat, owner: Owner, i: nat, j: nat,
                     m': seq<Frame>, owner': Owner, f: nat)
    requires Progress(s0, s, src, dest, owner, i + 1, j) && i < KERNEL && j < WORDS && Present(s.m[dest][i])
    requires CellWritten(s, dest, owner, i, j, m', owner') && m'[dest] == s.m[dest]
    requires f in owner && owner[f].Copy?
    ensures var Copy(a, b) := owner[f];
      a < KERNEL && b < WORDS && Cell(m', dest, a, b) == Cell(s.m, dest, a, b)
  {
    hide Extends, SlotsOk, CellsOk, UsesOk, TablesDistinct, TableOk, CellOk;
    var Copy(a, b) := owner[f];
    UsedCell(s0, s, src, dest, owner, i + 1, j, f);
    SlotTableKnown(s0, s, src, dest, owner, i + 1, j, i);
  }

  lemma {:induction false} SlotsAfterWrite(s0: Machine, s: Machine, src: nat, dest: nat, owner: Owner, i: nat, j: nat,
                        m': seq<Frame>, owner': Owner)
    requires Progress(s0, s, src, dest, owner, i + 1, j) && i < KERNEL && j < WORDS && Present(s.m[dest][i])
    requires CellWritten(s, dest, owner, i, j, m', owner')
    ensures m'[dest] == s.m[dest] && SlotsOk(s0, m', src, dest, owner', i + 1)
  {
    hide TablesDistinct, UsesOk, CellsOk;
    SlotTableKnown(s0, s, src, dest, owner, i + 1, j, i);
    var n := i + 1;
    forall k | 0 <= k < WORDS
      ensures SlotOk(s0, m', src, dest, owner', n, k)
    {
      assert SlotOk(s0, s.m, src, dest, owner, n, k);
    }
  }

  /** The loop step shared by copied and shared cells. */
  lemma {:induction false} CellsAfterWrite(s0: Machine, s: Machine, src: nat, dest: nat, owner: Owner, i: nat, j: nat,
                        m': seq<Frame>, owner': Owner)
    requires Progress(s0, s, src, dest, owner, i + 1, j) && i < KERNEL && j < WORDS && Present(s.m[dest][i])
    requires CellWritten(s, dest, owner, i, j, m', owner')
    requires forall f | f in owner' && f !in owner ::
      IsCopied(Cell(s0.m, src, i, j)) && FrameOf(m'[TableAt(s.m, dest, i)][j]) == f
    requires CellOk(s0, m', src, dest, owner', i, j)
    ensures UsesOk(s0.m, m', src, dest, owner') && SlotsOk(s0, m', src, dest, owner', i + 1)
    ensures CellsOk(s0, m', src, dest, owner', i + 1, j + 1)
  {
    SlotsAfterWrite(s0, s, src, dest, owner, i, j, m', owner');
    UsesAfterWrite(s0, s, src, dest, owner, i, j, m', owner');
    forall a, b | 0 <= a < i + 1 && 0 <= b < WORDS
      ensures if a < i || b < j + 1 then CellOk(s0, m', src, dest, owner', a, b) else Cell(m', dest, a, b) == 0
    {
      if a != i || b != j {
        OtherCellAfterWrite(s0, s, src, dest, owner, i, j, m', owner', a, b);
      }
    }
  }

  lemma {:induction false} OtherCellAfterWrite(s0: Machine, s: Machine, src: nat, dest: nat, owner: Owner, i: nat,
                                               j: nat,
                            m': seq<Frame>, owner': Owner, a: nat, b: nat)
    requires Progress(s0, s, src, dest, owner, i + 1, j) && i < KERNEL && j < WORDS && Present(s.m[dest][i])
    requires CellWritten(s, dest, owner, i, j, m', owner') && m'[dest] == s.m[dest]
    requires a < i + 1 && b < WORDS && (a != i || b != j)
    ensures if a < i || b < j + 1 then CellOk(s0, m', src, dest, owner', a, b) else Cell(m', dest, a, b) == 0
  {
    hide SlotsOk, SlotOk, UsesOk, TablesDistinct, TableOk;
    assert if a < i || b < j then CellOk(s0, s.m, src, dest, owner, a, b) else Cell(s.m, dest, a, b) == 0;
    SlotTableKnown(s0, s, src, dest, owner, i + 1, j, i);
    if Present(s.m[dest][a]) {
      SlotTableKnown(s0, s, src, dest, owner, i + 1, j, a);
    }
    CellSurvives(s0, s, src, dest, owner, i + 1, j, a, b, m');
  }

  /** Frames needed for the first j cells of slot i, for slot i, and for the first n slots. */
  function CellCost(m: seq<Frame>, src: nat, i: nat, j: nat): nat
    requires src < |m| && i < WORDS && j <= WORDS
  {
    if j == 0 then 0
    else CellCost(m, src, i, j - 1) + (if IsCopied(Cell(m, src, i, j - 1)) then 1 else 0)
  }

  function SlotCost(m: seq<Frame>, src: nat, i: nat): nat
    requires src < |m| && i < WORDS
  {
    if i < KERNEL && Present(m[src][i]) then 1 + CellCost(m, src, i, WORDS) else 0
  }

  /** Frames a clone has allocated once n slots are finished: the directory, a table per present
      user slot, and a copy per writable user page. */
  function Cost(m: seq<Frame>, src: nat, n: nat): nat
    requires src < |m| && n <= WORDS
  {
    if n == 0 then 1 else Cost(m, src, n - 1) + SlotCost(m, src, n - 1)
  }

  lemma {:induction false} CostGrows(m: seq<Frame>, src: nat, n: nat, n': nat)
    requires src < |m| && n <= n' <= WORDS
    ensures Cost(m, src, n) <= Cost(m, src, n')
  {
    if n < n' {
      CostGrows(m, src, n, n' - 1);
    }
  }

  lemma {:induction false} CellCostGrows(m: seq<Frame>, src: nat, i: nat, j: nat, j': nat)
    requires src < |m| && i < WORDS && j <= j' <= WORDS
    ensures CellCost(m, src, i, j) <= CellCost(m, src, i, j')
  {
    if j < j' {
      CellCostGrows(m, src, i, j, j' - 1);
    }
  }

  /** The frames of the copies among the recorded uses. */
  function Copies(owner: Owner): set<nat> {
    set f | f in owner && owner[f].Copy?
  }

  /** What a successful clone is. Pages are those of the source with the same flags; writable user
      pages live in fresh, pairwise distinct frames with equal contents; read-only user pages
      share their frame; the kernel half shares its tables. */
  ghost predicate IsClone(s0: Machine, s: Machine, src: nat, dest: nat) {
    && WellFormed(s0, src) && WellFormed(s, dest) && Extends(s0, s) && !s0.v[dest]
    && View(s.m, dest).Keys == View(s0.m, src).Keys
    && (forall p | p in View(s0.m, src) :: PageCloned(s0, s, src, dest, p))
    && (forall p, q | p in View(s0.m, src) && q in View(s0.m, src) && p < q
          && IsPrivate(s0, src, p) && IsPrivate(s0, src, q) ::
          View(s.m, dest)[p].frame != View(s.m, dest)[q].frame)
    && (forall k | 0 <= k < WORDS :: SlotCloned(s0, s, src, dest, k))
  }

  /** A page the two directories must not share. */
  ghost predicate IsPrivate(s: Machine, dir: nat, p: nat)
    requires dir < |s.m| && p in View(s.m, dir)
  {
    p / 1024 < KERNEL && Writable(View(s.m, dir)[p].flags)
  }

  ghost predicate PageCloned(s0: Machine, s: Machine, src: nat, dest: nat, p: nat)
    requires src < |s0.m| && dest < |s.m| && p in View(s0.m, src) && p in View(s.m, dest) && |s0.v| == |s.v|
  {
    var a, b := View(s0.m, src)[p], View(s.m, dest)[p];
    && a.flags == b.flags
    && (if IsPrivate(s0, src, p)
        then b.frame < |s.v| && !s0.v[b.frame] && s.v[b.frame] && SameContent(s0.m, a.frame, s.m, b.frame)
        else a.frame == b.frame)
  }

  ghost predicate SlotCloned(s0: Machine, s: Machine, src: nat, dest: nat, k: nat)
    requires src < |s0.m| && dest < |s.m| == |s0.v| && k < WORDS
  {
    && (Present(s.m[dest][k]) <==> Present(s0.m[src][k]))
    && (Present(s.m[dest][k]) ==>
        if k >= KERNEL then s.m[dest][k] == s0.m[src][k]
        else TableAt(s.m, dest, k) < |s0.v| && !s0.v[TableAt(s.m, dest, k)])
  }

  lemma {:induction false} FinishedPage(s0: Machine, s: Machine, src: nat, dest: nat, owner: Owner, p: nat)
    requires Progress(s0, s, src, dest, owner, WORDS, WORDS) && p < PAGES
    ensures p in View(s.m, dest) <==> p in View(s0.m, src)
    ensures p in View(s0.m, src) ==> PageCloned(s0, s, src, dest, p)
    ensures p in View(s0.m, src) && IsPrivate(s0, src, p) ==>
      View(s.m, dest)[p].frame in owner && owner[View(s.m, dest)[p].frame] == Copy(p / 1024, p % 1024)
  {
    hide TablesDistinct, UsesOk;
    var i, j := p / 1024, p % 1024;
    if i < KERNEL {
      assert CellOk(s0, s.m, src, dest, owner, i, j);
      FlagBitsOf(Cell(s0.m, src, i, j));
      FlagBitsOf(Cell(s.m, dest, i, j));
    } else {
      assert SlotOk(s0, s.m, src, dest, owner, WORDS, i);
      assert TableOk(s0, src, i);
    }
  }

  lemma {:induction false} FlagBitsOf(e: u32)
    ensures Present(FlagsOf(e)) == Present(e) && Writable(FlagsOf(e)) == Writable(e)
  {
    hide Present, Writable;
    EntryFields(FrameOf(e), FlagsOf(e));
  }

  lemma {:induction false} Finished(s0: Machine, s: Machine, src: nat, dest: nat, owner: Owner)
    requires Progress(s0, s, src, dest, owner, WORDS, WORDS)
    ensures IsClone(s0, s, src, dest)
  {
    ProgressWellFormed(s0, s, src, dest, owner, WORDS, WORDS);
    forall p: nat | p < PAGES
      ensures p in View(s.m, dest) <==> p in View(s0.m, src)
      ensures p in View(s0.m, src) ==> PageCloned(s0, s, src, dest, p)
    {
      FinishedPage(s0, s, src, dest, owner, p);
    }
    forall p, q | p in View(s0.m, src) && q in View(s0.m, src) && p < q
        && IsPrivate(s0, src, p) && IsPrivate(s0, src, q)
      ensures View(s.m, dest)[p].frame != View(s.m, dest)[q].frame
    {
      FinishedPage(s0, s, src, dest, owner, p);
      FinishedPage(s0, s, src, dest, owner, q);
    }
    forall k | 0 <= k < WORDS
      ensures SlotCloned(s0, s, src, dest, k)
    {
      assert SlotOk(s0, s.m, src, dest, owner, WORDS, k);
      if Present(s.m[dest][k]) {
        SlotTableKnown(s0, s, src, dest, owner, WORDS, WORDS, k);
      }
    }
  }

  /** One page of a clone, by its number: below 3 GB its table is the clone's own, and a writable page
      lives in a frame that was free, with equal contents, a read-only one in the same frame; from
      3 GB on the table is the source's own. */
  ghost predicate ClonedAt(s0: Machine, s: Machine, src: nat, dest: nat, p: nat)
    requires src < |s0.m| == |s.m| == |s0.v| == |s.v| && dest < |s.m| && p in View(s0.m, src) && p in View(s.m, dest)
  {
    var a, b := View(s0.m, src)[p], View(s.m, dest)[p];
    && a.flags == b.flags
    && (if p < 0xC_0000 then
          && TableAt(s.m, dest, p / 1024) < |s0.v| && !s0.v[TableAt(s.m, dest, p / 1024)]
          && (if (a.flags / 2) % 2 == 1
              then
                && b.frame < |s0.v| && !s0.v[b.frame] && s.v[b.frame]
                && a.frame < |s0.m| && s.m[b.frame] == s0.m[a.frame]
              else b.frame == a.frame)
        else s.m[dest][p / 1024] == s.m[src][p / 1024] && b == a)
  }

  /** The page is in both maps or in neither, and cloned as above. */
  ghost predicate OnPage(s0: Machine, s: Machine, src: nat, dest: nat, p: nat) {
    && src < |s0.m| == |s.m| == |s0.v| == |s.v| && dest < |s.m|
    && (p in View(s.m, dest) <==> p in View(s0.m, src))
    && (p in View(s0.m, src) ==> ClonedAt(s0, s, src, dest, p))
  }

  lemma {:induction false} CloneOnPage(s0: Machine, s: Machine, src: nat, dest: nat, p: nat)
    requires IsClone(s0, s, src, dest)
    ensures OnPage(s0, s, src, dest, p)
  {
    CloneFacts(s0, s, src, dest);
    if p in View(s0.m, src) {
      CloneFactsAt(s0, s, src, dest, p);
      hide View, IsClone, Extends;
    }
  }

  lemma {:induction false} CloneFacts(s0: Machine, s: Machine, src: nat, dest: nat)
    requires IsClone(s0, s, src, dest)
    ensures src < |s0.m| == |s.m| == |s0.v| == |s.v| && dest < |s.m| && s.m[src] == s0.m[src]
    ensures View(s.m, dest).Keys == View(s0.m, src).Keys
  {
    SourceUnchanged(s0, s, src);
  }

  lemma {:induction false} CloneFactsAt(s0: Machine, s: Machine, src: nat, dest: nat, p: nat)
    requires IsClone(s0, s, src, dest) && src < |s0.m| && p in View(s0.m, src)
    ensures src < |s0.m| == |s.m| == |s0.v| == |s.v| && dest < |s.m| && p < PAGES && p in View(s.m, dest)
    ensures PageCloned(s0, s, src, dest, p) && SlotCloned(s0, s, src, dest, p / 1024)
    ensures Present(s0.m[src][p / 1024])
  {
    MappedPage(s0.m, src, p);
    hide PageCloned, SlotCloned, WellFormed, View, Present;
  }

  lemma {:induction false} MappedPage(m: seq<Frame>, dir: nat, p: nat)
    requires dir < |m| && p in View(m, dir)
    ensures p < PAGES && Present(m[dir][p / 1024])
  {
    assert Present(EntryAt(m, dir, p));
  }

  /** No two writable pages below 3 GB share a frame of the clone. */
  lemma {:induction false} CloneFramesDistinct(s0: Machine, s: Machine, src: nat, dest: nat, p: nat, q: nat)
    requires IsClone(s0, s, src, dest) && p < q < 0xC_0000 && src < |s0.m| && dest < |s.m|
    requires p in View(s0.m, src) && (View(s0.m, src)[p].flags / 2) % 2 == 1
    requires q in View(s0.m, src) && (View(s0.m, src)[q].flags / 2) % 2 == 1
    ensures p in View(s.m, dest) && q in View(s.m, dest) && View(s.m, dest)[p].frame != View(s.m, dest)[q].frame
  {}

  /** A clone that ran out of memory: everything the source state used is as before, and the only
      frames that stay allocated are copies of distinct writable user pages. */
  ghost predicate Failed(s0: Machine, s: Machine, src: nat, owner: Owner) {
    && Extends(s0, s) && src < |s0.m|
    && (forall f | 0 <= f < |s0.v| :: s.v[f] <==> s0.v[f] || f in Copies(owner))
    && (forall f | f in Copies(owner) :: f < |s0.v| && !s0.v[f] && LeakedCopy(s0, s, src, owner, f))
    && (forall f, g | f in Copies(owner) && g in Copies(owner) && f != g :: owner[f] != owner[g])
  }

  predicate LeakedCopy(s0: Machine, s: Machine, src: nat, owner: Owner, f: nat)
    requires src < |s0.m| && f in owner && owner[f].Copy?
  {
    var Copy(i, j) := owner[f];
    && i < KERNEL && j < WORDS && IsCopied(Cell(s0.m, src, i, j))
    && SameContent(s0.m, FrameOf(Cell(s0.m, src, i, j)), s.m, f)
  }

  /** Freeing an unfinished clone gives back the directory and the tables, and nothing else. */
  lemma {:induction false} FailedAfterFree(s0: Machine, s: Machine, src: nat, dest: nat, owner: Owner, n: nat,
                                           jj: nat, v': Bitmap)
    requires Progress(s0, s, src, dest, owner, n, jj) && n <= KERNEL && |v'| == |s.v|
    requires forall f | 0 <= f < |s.v| :: v'[f] <==> s.v[f] && f != dest && !IsTable(s.m, dest, WORDS, f)
    ensures Failed(s0, Machine(s.m, v'), src, owner)
  {
    forall f | f in Copies(owner)
      ensures LeakedCopy(s0, Machine(s.m, v'), src, owner, f)
    {
      CopiedCell(s0, s, src, dest, owner, n, jj, f);
    }
    forall f, g | f in Copies(owner) && g in Copies(owner) && f != g
      ensures owner[f] != owner[g]
    {
      CopiedCell(s0, s, src, dest, owner, n, jj, f);
      CopiedCell(s0, s, src, dest, owner, n, jj, g);
    }
    FreedAfterFailure(s0, s, src, dest, owner, n, jj, v');
  }

  lemma {:induction false} CopiedCell(s0: Machine, s: Machine, src: nat, dest: nat, owner: Owner, n: nat, jj: nat,
                                      f: nat)
    requires Progress(s0, s, src, dest, owner, n, jj) && f in owner && owner[f].Copy?
    ensures LeakedCopy(s0, s, src, owner, f)
    ensures var Copy(i, j) := owner[f]; f == FrameOf(Cell(s.m, dest, i, j))
  {
    hide TablesDistinct, TableOk, SlotsOk, CellsOk;
    assert UseOk(s0.m, s.m, src, dest, f, owner[f]);
    UsedCell(s0, s, src, dest, owner, n, jj, f);
  }

  lemma {:induction false} FreedAfterFailure(s0: Machine, s: Machine, src: nat, dest: nat, owner: Owner, n: nat,
                                             jj: nat, v': Bitmap)
    requires Progress(s0, s, src, dest, owner, n, jj) && n <= KERNEL && |v'| == |s.v|
    requires forall f | 0 <= f < |s.v| :: v'[f] <==> s.v[f] && f != dest && !IsTable(s.m, dest, WORDS, f)
    ensures forall f | 0 <= f < |s.v| :: (v'[f] <==> s0.v[f] || f in Copies(owner)) && (s0.v[f] ==> v'[f])
  {
    forall f | 0 <= f < |s.v|
      ensures v'[f] <==> s0.v[f] || f in Copies(owner)
      ensures s0.v[f] ==> v'[f]
    {
      if f in owner {
        assert UseOk(s0.m, s.m, src, dest, f, owner[f]);
      }
      if IsTable(s.m, dest, WORDS, f) {
        var k :| 0 <= k < WORDS && Present(s.m[dest][k]) && TableAt(s.m, dest, k) == f;
        SlotTableKnown(s0, s, src, dest, owner, n, jj, k);
      }
    }
  }

  lemma {:induction false} FailedKeepsSource(s0: Machine, s: Machine, src: nat, owner: Owner)
    requires WellFormed(s0, src) && Failed(s0, s, src, owner)
    ensures src < |s0.m| == |s.m| && View(s.m, src) == View(s0.m, src)
  {
    SourceUnchanged(s0, s, src);
  }

  lemma {:induction false} ProgressFacts(s0: Machine, s: Machine, src: nat, dest: nat, owner: Owner, n: nat, jj: nat)
    requires Progress(s0, s, src, dest, owner, n, jj)
    ensures src < |s.m| == |s0.m| == |s.v| == |s0.v| && src < |s0.m| && 0 < dest < |s.m| && WellFormed(s, dest)
    ensures Extends(s0, s) && Count(s.v) == Count(s0.v) + |owner|
    ensures s.m[src] == s0.m[src] && View(s.m, src) == View(s0.m, src)
    ensures forall i, j | 0 <= i < WORDS && 0 <= j < WORDS :: Cell(s.m, src, i, j) == Cell(s0.m, src, i, j)
    ensures n < WORDS ==> s.m[dest][n] == 0
  {
    ProgressWellFormed(s0, s, src, dest, owner, n, jj);
    SourceUnchanged(s0, s, src);
    if n < WORDS {
      assert SlotOk(s0, s.m, src, dest, owner, n, n);
    }
  }

  /** What the clone of slot i reads and allocates first. */
  lemma {:induction false} CloneNeedsTable(s0: Machine, s: Machine, src: nat, dest: nat, owner: Owner, i: nat)
    requires Progress(s0, s, src, dest, owner, i, WORDS) && i < KERNEL
    ensures dest < |s.m| == |s.v| && !Present(s.m[dest][i])
    ensures var t := Search(s.v, 1, 0);
      if t == -1 then WithTable(s, dest, i) == s && Count(s.v) == |s.v|
      else t > 0 && Present(WithTable(s, dest, i).m[dest][i]) && TableAt(WithTable(s, dest, i).m, dest, i) == t
  {
    assert SlotOk(s0, s.m, src, dest, owner, i, i);
    SearchOne(s.v);
    if Search(s.v, 1, 0) != -1 {
      assert FreeRun(s.v, Search(s.v, 1, 0), 1);
    }
  }

  /** Both tables of slot i, and cell j of the source, during the copy of cell (i, j). */
  lemma {:induction false} CellFacts(s0: Machine, s: Machine, src: nat, dest: nat, owner: Owner, i: nat, j: nat)
    requires Progress(s0, s, src, dest, owner, i + 1, j) && i < KERNEL && j < WORDS && Present(s0.m[src][i])
    requires SourcesUsed(s0, src)
    ensures src < |s.m| && dest < |s.m|
    ensures TableAt(s.m, src, i) < |s.m|
    ensures s.m[TableAt(s.m, src, i)][j] == Cell(s0.m, src, i, j) == Cell(s.m, src, i, j)
    ensures Present(s.m[dest][i]) && TableAt(s.m, dest, i) < |s.m|
    ensures IsCopied(Cell(s0.m, src, i, j)) ==>
      var f := FrameOf(Cell(s0.m, src, i, j)); f < |s0.m| && f < |s.m| && s.m[f] == s0.m[f] && s.v[f]
  {
    var n := i + 1;
    assert SlotOk(s0, s.m, src, dest, owner, n, i);
    SlotTableKnown(s0, s, src, dest, owner, i + 1, j, i);
    SourceUnchanged(s0, s, src);
    assert TableOk(s0, src, i);
  }

  lemma {:induction false} PackIndexes(i: nat, j: nat)
    requires i < WORDS && j < WORDS
    ensures Shl32(i, 22) == i * 0x40_0000 && Shl32(j, 12) == j * 0x1000
    ensures Or(Shl32(i, 22), Shl32(j, 12)) == i * 0x40_0000 + j * 0x1000
  {
    hide Or, Shl32, Pow2;
    Pow2Values();
    ShlIsMul(i, 22);
    ShlIsMul(j, 12);
    MulMod(i, 0x40_0000);
    OrIsPack(i * 0x40_0000, j * 0x1000, 22);
  }

  /** The virtual address of cell (i, j) reaches the frame of that cell. */
  lemma {:induction false} TranslateCell(m: seq<Frame>, dir: nat, i: nat, j: nat)
    requires dir < |m| && i < WORDS && j < WORDS && Present(Cell(m, dir, i, j))
    ensures Shl32(i, 22) + Shl32(j, 12) < U32
    ensures Or(Shl32(i, 22), Shl32(j, 12)) == Shl32(i, 22) + Shl32(j, 12)
    ensures Translate(m, dir, Shl32(i, 22) + Shl32(j, 12)) == (true, FrameOf(Cell(m, dir, i, j)) * 4096)
  {
    hide Or, Shl32, Pow2;
    PackIndexes(i, j);
    DivModUnique(i * 0x40_0000 + j * 0x1000, PAGE, i * WORDS + j, 0);
    DivModUnique(i * WORDS + j, WORDS, i, j);
  }
}
