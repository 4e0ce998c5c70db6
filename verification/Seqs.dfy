/** Sequence operations shared by the list-shaped models. */
module Seqs {
  /** s with the element at index k removed. */
  function Without<T>(s: seq<T>, k: nat): (r: seq<T>)
    requires k < |s|
    ensures |r| == |s| - 1
  {
    s[..k] + s[k + 1..]
  }

  ghost predicate Distinct<T>(s: seq<T>) {
    forall i, j | 0 <= i < j < |s| :: s[i] != s[j]
  }

  lemma {:induction false} WithoutAt<T>(s: seq<T>, k: nat, i: nat)
    requires k < |s| && i < |s|
    ensures i < k ==> Without(s, k)[i] == s[i]
    ensures i > k ==> Without(s, k)[i - 1] == s[i]
  {}

  lemma {:induction false} WithoutDistinct<T>(s: seq<T>, k: nat)
    requires k < |s| && Distinct(s)
    ensures Distinct(Without(s, k)) && s[k] !in Without(s, k)
    ensures forall x | x in Without(s, k) :: x in s
  {
    var r := Without(s, k);
    forall i | 0 <= i < |r|
      ensures r[i] == s[if i < k then i else i + 1] && r[i] != s[k] && r[i] in s
    {
      assert i < k ==> s[i] != s[k];
    }
    forall i, j | 0 <= i < j < |r|
      ensures r[i] != r[j]
    {
      assert s[if i < k then i else i + 1] != s[if j < k then j else j + 1];
    }
  }

  lemma {:induction false} SubsetSize<T>(a: set<T>, b: set<T>)
    requires a <= b
    ensures |a| <= |b|
  {
    if a != {} {
      var x :| x in a;
      SubsetSize(a - {x}, b - {x});
    }
  }
}
