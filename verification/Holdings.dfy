/** Who owns which physical blocks: the conservation argument shared by the lists whose nodes and
    buffers come from pmm_alloc_blocks. */
module Holdings {
  import opened Bits
  import opened Bitmaps
  import opened PmmPool
  import opened Seqs

  function Blocks(start: nat, n: nat): (s: set<nat>)
    ensures forall i :: i in s <==> start <= i < start + n
  {
    if n == 0 then {} else Blocks(start, n - 1) + {start + n - 1}
  }

  /** v with every block of s marked b. */
  function Mark(v: Bitmap, s: set<nat>, b: bool): Bitmap {
    seq(|v|, i requires 0 <= i < |v| => if i in s then b else v[i])
  }

  ghost predicate AllAre(v: Bitmap, s: set<nat>, b: bool) {
    forall i | i in s :: i < |v| && v[i] == b
  }

  ghost predicate PairwiseDisjoint(fs: seq<set<nat>>) {
    forall j, k | 0 <= j < k < |fs| :: fs[j] !! fs[k]
  }

  function Union(fs: seq<set<nat>>): (u: set<nat>)
    ensures forall i :: i in u <==> exists k | 0 <= k < |fs| :: i in fs[k]
  {
    if fs == [] then {} else
      var u := fs[0] + Union(fs[1..]);
      assert forall i :: i in fs[0] ==> 0 < |fs| && i in fs[0];
      assert forall k | 0 < k < |fs| :: fs[k] == fs[1..][k - 1];
      u
  }

  lemma {:induction false} FillIsMark(v: Bitmap, start: nat, n: nat, b: bool)
    ensures Fill(v, start, n, b) == Mark(v, Blocks(start, n), b)
  {}

  lemma {:induction false} MarkTwice(v: Bitmap, s: set<nat>, t: set<nat>, b: bool)
    ensures Mark(Mark(v, s, b), t, b) == Mark(v, s + t, b)
  {}

  /** A found free run is free and disjoint from everything in use. */
  lemma {:induction false} FoundIsFree(v: Bitmap, start: nat, n: nat)
    requires FreeRun(v, start, n)
    ensures AllAre(v, Blocks(start, n), false)
    ensures Fill(v, start, n, true) == Mark(v, Blocks(start, n), true)
  {}

  /** One allocation, in terms of the blocks it takes. */
  lemma {:induction false} TakenMarks(p: Pool, n: u32)
    requires |p.v| < U32 && Found(p, n) != -1
    ensures var p' := Step(p, AllocMany(n));
      && AllAre(p.v, Blocks(Found(p, n), n), false)
      && p'.v == Mark(p.v, Blocks(Found(p, n), n), true)
      && (Agrees(p) ==> Agrees(p'))
  {
    hide Found;
    FindsFree(p, n);
    FoundIsFree(p.v, Found(p, n), n);
    if Agrees(p) {
      TakenAgrees(p, Found(p, n), n);
    }
  }

  /** One free, in terms of the blocks it clears. */
  lemma {:induction false} GivenMarks(p: Pool, address: u32, n: u32)
    requires |p.v| < U32
    ensures var p' := Step(p, FreeMany(address, n));
      && p'.v == Mark(p.v, Blocks(address / 4096, n), false)
      && (Agrees(p) && AllAre(p.v, Blocks(address / 4096, n), true) ==> Agrees(p'))
  {
    FillIsMark(p.v, address / 4096, n, false);
    if Agrees(p) && AllAre(p.v, Blocks(address / 4096, n), true) {
      GivenAgreesExactly(p, address / 4096, n);
    }
  }

  /** What is found lies in memory. */
  lemma {:induction false} FoundInside(p: Pool, n: u32)
    ensures Found(p, n) >= -1 && (Found(p, n) != -1 ==> Found(p, n) + n <= |p.v|)
  {
    FindsFree(p, n);
  }

  /** Exactly the boot-time blocks and the holdings are in use, and no block has two holders. */
  ghost predicate Conserved(base: Bitmap, v: Bitmap, fs: seq<set<nat>>) {
    && v == Mark(base, Union(fs), true)
    && PairwiseDisjoint(fs)
    && AllAre(base, Union(fs), false)
  }

  lemma {:induction false} NoneConserved(base: Bitmap)
    ensures Conserved(base, base, [])
  {}

  lemma {:induction false} UnionCons(s: set<nat>, fs: seq<set<nat>>)
    ensures Union([s] + fs) == s + Union(fs)
  {
    assert ([s] + fs)[1..] == fs;
  }

  lemma {:induction false} UnionInsert(fs: seq<set<nat>>, i: nat, s: set<nat>)
    requires i <= |fs|
    ensures Union(fs[..i] + [s] + fs[i..]) == Union(fs) + s
    decreases i
  {
    hide Union;
    if i == 0 {
      UnionCons(s, fs);
      assert fs[..0] + [s] + fs[0..] == [s] + fs;
    } else {
      var rest := fs[1..];
      UnionInsert(rest, i - 1, s);
      assert fs[..i] + [s] + fs[i..] == [fs[0]] + (rest[..i - 1] + [s] + rest[i - 1..]);
      UnionCons(fs[0], rest[..i - 1] + [s] + rest[i - 1..]);
      UnionCons(fs[0], rest);
      assert [fs[0]] + rest == fs;
    }
  }

  /** Taking free blocks into a new holding, wherever it goes in the list. */
  lemma {:induction false} GrantConserved(base: Bitmap, v: Bitmap, fs: seq<set<nat>>, i: nat, s: set<nat>)
    requires Conserved(base, v, fs) && i <= |fs| && AllAre(v, s, false)
    ensures Conserved(base, Mark(v, s, true), fs[..i] + [s] + fs[i..])
  {
    hide Union;
    UnionInsert(fs, i, s);
    MarkTwice(base, Union(fs), s, true);
    var gs := fs[..i] + [s] + fs[i..];
    assert forall k | 0 <= k < |fs| :: fs[k] !! s by {
      forall k | 0 <= k < |fs|
        ensures fs[k] !! s
      {
        HeldIsUsed(base, v, fs, k);
      }
    }
    forall j, k | 0 <= j < k < |gs|
      ensures gs[j] !! gs[k]
    {
      assert j != i ==> gs[j] == fs[if j < i then j else j - 1];
      assert k != i ==> gs[k] == fs[if k < i then k else k - 1];
    }
  }

  lemma {:induction false} HeldIsUsed(base: Bitmap, v: Bitmap, fs: seq<set<nat>>, k: nat)
    requires Conserved(base, v, fs) && k < |fs|
    ensures AllAre(v, fs[k], true) && AllAre(base, fs[k], false)
  {}

  lemma {:induction false} WithoutDisjoint(fs: seq<set<nat>>, k: nat)
    requires k < |fs| && PairwiseDisjoint(fs)
    ensures PairwiseDisjoint(Without(fs, k))
    ensures forall j | 0 <= j < |fs| - 1 :: Without(fs, k)[j] !! fs[k]
  {
    var gs := Without(fs, k);
    forall j | 0 <= j < |gs|
      ensures gs[j] !! fs[k]
    {
      assert gs[j] == fs[if j < k then j else j + 1];
    }
    forall i, j | 0 <= i < j < |gs|
      ensures gs[i] !! gs[j]
    {
      assert fs[if i < k then i else i + 1] !! fs[if j < k then j else j + 1];
    }
  }

  lemma {:induction false} UnionApart(fs: seq<set<nat>>, s: set<nat>)
    requires forall k | 0 <= k < |fs| :: fs[k] !! s
    ensures Union(fs) !! s
  {
    hide Union;
    forall x | x in Union(fs)
      ensures x !in s
    {
      var k :| 0 <= k < |fs| && x in fs[k];
      assert fs[k] !! s;
    }
  }

  lemma {:induction false} UnionWithout(fs: seq<set<nat>>, k: nat)
    requires k < |fs| && PairwiseDisjoint(fs)
    ensures Union(Without(fs, k)) == Union(fs) - fs[k]
    ensures PairwiseDisjoint(Without(fs, k))
  {
    hide PairwiseDisjoint, Union;
    var gs := Without(fs, k);
    WithoutDisjoint(fs, k);
    UnionInsert(gs, k, fs[k]);
    assert gs[..k] + [fs[k]] + gs[k..] == fs;
    UnionApart(gs, fs[k]);
  }

  /** Giving one holding back leaves every other holder's blocks alone. */
  lemma {:induction false} ReturnConserved(base: Bitmap, v: Bitmap, fs: seq<set<nat>>, k: nat)
    requires Conserved(base, v, fs) && k < |fs|
    ensures Conserved(base, Mark(v, fs[k], false), Without(fs, k))
  {
    hide Union;
    UnionWithout(fs, k);
    HeldIsUsed(base, v, fs, k);
    var u := Union(fs);
    assert Mark(Mark(base, u, true), fs[k], false) == Mark(base, u - fs[k], true);
  }

  // ---------------------------------------------------------------- several clients, one bitmap

  lemma {:induction false} UnionIsUsed(base: Bitmap, v: Bitmap, fs: seq<set<nat>>)
    requires Conserved(base, v, fs)
    ensures AllAre(v, Union(fs), true) && AllAre(base, Union(fs), false) && |v| == |base|
  {}

  /** All blocks held by any of the clients, each of which has a list of holdings. */
  function AllHeld(hs: seq<seq<set<nat>>>): (u: set<nat>)
    ensures forall i :: i in u <==> exists c | 0 <= c < |hs| :: i in Union(hs[c])
  {
    if hs == [] then {} else
      var u := Union(hs[0]) + AllHeld(hs[1..]);
      assert forall i :: i in Union(hs[0]) ==> 0 < |hs| && i in Union(hs[0]);
      assert forall c | 0 < c < |hs| :: hs[c] == hs[1..][c - 1];
      u
  }

  /** The blocks held by the other clients. */
  function HeldByOthers(hs: seq<seq<set<nat>>>, c: nat): set<nat>
    requires c < |hs|
  {
    AllHeld(hs[c := []])
  }

  /** What client c sees as not its own. */
  function BaseFor(base: Bitmap, hs: seq<seq<set<nat>>>, c: nat): Bitmap
    requires c < |hs|
  {
    Mark(base, HeldByOthers(hs, c), true)
  }

  /** The books of every client are right, each on top of what the others hold. */
  ghost predicate AllConserved(base: Bitmap, v: Bitmap, hs: seq<seq<set<nat>>>) {
    forall c | 0 <= c < |hs| :: Conserved(BaseFor(base, hs, c), v, hs[c])
  }

  lemma {:induction false} NoUnion()
    ensures Union([]) == {}
  {}

  lemma {:induction false} OthersAre(hs: seq<seq<set<nat>>>, c: nat, i: nat)
    requires c < |hs|
    ensures i in HeldByOthers(hs, c) <==> exists d | 0 <= d < |hs| && d != c :: i in Union(hs[d])
  {
    hide Union;
    var gs := hs[c := []];
    NoUnion();
    assert forall d | 0 <= d < |hs| && d != c :: gs[d] == hs[d];
  }

  lemma {:induction false} OthersElse(hs: seq<seq<set<nat>>>, c: nat, d: nat, fs: seq<set<nat>>, i: nat)
    requires c < |hs| && d < |hs| && c != d
    ensures i in HeldByOthers(hs[c := fs], d) || i in Union(hs[d]) <==> i in HeldByOthers(hs, c) || i in Union(fs)
    ensures i in HeldByOthers(hs[c := fs], d) ==> i in Union(fs) || i in HeldByOthers(hs, d)
    ensures i in Union(hs[d]) ==> i in HeldByOthers(hs, c)
  {
    hide Union, HeldByOthers;
    var hs' := hs[c := fs];
    OthersAre(hs', d, i);
    OthersAre(hs, d, i);
    OthersAre(hs, c, i);
    assert hs'[c] == fs && hs'[d] == hs[d];
    assert forall e | 0 <= e < |hs| && e != c :: hs'[e] == hs[e];
  }

  /** After a call of client c the books of every other client are right on their moved bases. */
  lemma {:induction false} OtherClient(base: Bitmap, v: Bitmap, hs: seq<seq<set<nat>>>, c: nat, v': Bitmap,
                                       fs: seq<set<nat>>,
                                       d: nat)
    requires AllConserved(base, v, hs) && c < |hs| && d < |hs| && c != d
    requires Conserved(BaseFor(base, hs, c), v', fs)
    ensures Conserved(BaseFor(base, hs[c := fs], d), v', hs[d])
  {
    hide Union, HeldByOthers;
    UnionIsUsed(BaseFor(base, hs, c), v', fs);
    UnionIsUsed(BaseFor(base, hs, d), v, hs[d]);
    var mine := BaseFor(base, hs[c := fs], d);
    forall i: nat | i < |base|
      ensures v'[i] == (i in Union(hs[d]) || mine[i])
      ensures i in Union(hs[d]) ==> !mine[i]
    {
      OthersElse(hs, c, d, fs, i);
    }
    assert Conserved(BaseFor(base, hs, d), v, hs[d]);
    assert v' == Mark(mine, Union(hs[d]), true);
  }

  /** A call that keeps one client's books keeps everybody's, however many clients there are. */
  lemma {:induction false} ClientStep(base: Bitmap, v: Bitmap, hs: seq<seq<set<nat>>>, c: nat, v': Bitmap,
                                      fs: seq<set<nat>>)
    requires AllConserved(base, v, hs) && c < |hs| && Conserved(BaseFor(base, hs, c), v', fs)
    ensures AllConserved(base, v', hs[c := fs])
  {
    hide Union, Conserved, BaseFor;
    assert BaseFor(base, hs[c := fs], c) == BaseFor(base, hs, c) by {
      OwnBase(base, hs, c, fs);
    }
    forall d | 0 <= d < |hs| && d != c
      ensures Conserved(BaseFor(base, hs[c := fs], d), v', hs[d])
    {
      OtherClient(base, v, hs, c, v', fs, d);
    }
  }

  lemma {:induction false} OwnBase(base: Bitmap, hs: seq<seq<set<nat>>>, c: nat, fs: seq<set<nat>>)
    requires c < |hs|
    ensures BaseFor(base, hs[c := fs], c) == BaseFor(base, hs, c)
  {
    assert hs[c := fs][c := []] == hs[c := []];
  }

  /** No block has two holders, in one client or in two, and nothing else is in use beyond `base`. */
  lemma {:induction false} AllConservedMeans(base: Bitmap, v: Bitmap, hs: seq<seq<set<nat>>>)
    requires AllConserved(base, v, hs) && hs != []
    ensures v == Mark(base, AllHeld(hs), true) && AllAre(base, AllHeld(hs), false)
    ensures forall c | 0 <= c < |hs| :: PairwiseDisjoint(hs[c])
    ensures forall c, d | 0 <= c < |hs| && 0 <= d < |hs| && c != d :: Union(hs[c]) !! Union(hs[d])
  {
    hide Union, HeldByOthers, PairwiseDisjoint;
    forall i: nat
      ensures i in AllHeld(hs) <==> i in HeldByOthers(hs, 0) || i in Union(hs[0])
    {
      OthersAre(hs, 0, i);
    }
    assert Conserved(BaseFor(base, hs, 0), v, hs[0]);
    assert v == Mark(base, AllHeld(hs), true);
    forall c, i | 0 <= c < |hs| && i in Union(hs[c])
      ensures i < |base| && !base[i] && i !in HeldByOthers(hs, c)
    {
      assert Conserved(BaseFor(base, hs, c), v, hs[c]);
    }
    forall c, d | 0 <= c < |hs| && 0 <= d < |hs| && c != d
      ensures Union(hs[c]) !! Union(hs[d])
    {
      forall i | i in Union(hs[c])
        ensures i !in Union(hs[d])
      {
        OthersAre(hs, c, i);
      }
    }
    forall c | 0 <= c < |hs|
      ensures PairwiseDisjoint(hs[c])
    {
      assert Conserved(BaseFor(base, hs, c), v, hs[c]);
    }
  }
}
