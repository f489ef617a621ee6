/** Sequence operations that stand for the store's row-level primitives:
    `findUnique`/`findFirst` (the first row satisfying a condition), a
    `where` filter, and the pairwise constraints a table keeps. */
module Seqs {
  import opened Common

  /** The index of the first element satisfying `p`, if any. */
  function FirstIndex<T>(s: seq<T>, p: T -> bool): (r: Option<nat>)
    ensures r.Some? ==> r.value < |s| && p(s[r.value])
    ensures r.Some? ==> forall k :: 0 <= k < r.value ==> !p(s[k])
    ensures r.None? <==> forall k :: 0 <= k < |s| ==> !p(s[k])
    decreases |s|
  {
    if |s| == 0 then None
    else if p(s[0]) then Some(0)
    else
      var rest := FirstIndex(s[1..], p);
      assert forall k :: 1 <= k < |s| ==> s[1..][k - 1] == s[k];
      if rest.None? then None else Some(rest.value + 1)
  }

  /** The elements of `s` satisfying `p`, in their original order. */
  function Filter<T(!new)>(s: seq<T>, p: T -> bool): (r: seq<T>)
    ensures |r| <= |s|
    ensures forall k :: 0 <= k < |r| ==> p(r[k])
    ensures forall x :: x in r <==> x in s && p(x)
    decreases |s|
  {
    if |s| == 0 then []
    else
      var rest := Filter(s[1..], p);
      assert forall x :: x in s <==> x == s[0] || x in s[1..];
      if p(s[0]) then [s[0]] + rest else rest
  }

  /** The filter keeps each element satisfying `p` as often as it occurs,
      and no other element. */
  lemma {:induction false} FilterMultiplicity<T(!new)>(s: seq<T>, p: T -> bool)
    ensures forall x :: multiset(Filter(s, p))[x] == if p(x) then multiset(s)[x] else 0
    decreases |s|
  {
    if |s| > 0 {
      FilterMultiplicity(s[1..], p);
      assert s == [s[0]] + s[1..];
    }
  }

  /** Every element of a rearrangement is an element of the original. */
  lemma PermutationMembers<T>(a: seq<T>, b: seq<T>)
    requires multiset(a) == multiset(b)
    ensures forall k :: 0 <= k < |a| ==> a[k] in b
  {
    forall k | 0 <= k < |a| ensures a[k] in b {
      assert a[k] in multiset(a);
    }
  }

  /** `rel` holds of every element and every element after it. */
  ghost predicate Pairwise<T>(s: seq<T>, rel: (T, T) -> bool) {
    forall i, j :: 0 <= i < j < |s| ==> rel(s[i], s[j])
  }

  lemma PairwiseAppend<T>(s: seq<T>, x: T, rel: (T, T) -> bool)
    requires Pairwise(s, rel)
    requires forall i :: 0 <= i < |s| ==> rel(s[i], x)
    ensures Pairwise(s + [x], rel)
  {
  }

  lemma PairwiseReplace<T>(s: seq<T>, k: nat, x: T, rel: (T, T) -> bool)
    requires k < |s| && Pairwise(s, rel)
    requires forall i :: 0 <= i < k ==> rel(s[i], x)
    requires forall j :: k < j < |s| ==> rel(x, s[j])
    ensures Pairwise(s[k := x], rel)
  {
  }

  lemma {:induction false} PairwiseFilter<T(!new)>(s: seq<T>, p: T -> bool, rel: (T, T) -> bool)
    requires Pairwise(s, rel)
    ensures Pairwise(Filter(s, p), rel)
    decreases |s|
  {
    if |s| > 0 {
      PairwiseFilter(s[1..], p, rel);
      var rest := Filter(s[1..], p);
      if p(s[0]) {
        forall j | 0 <= j < |rest|
          ensures rel(s[0], rest[j])
        {
          assert rest[j] in s[1..];
          var k :| 0 <= k < |s[1..]| && s[1..][k] == rest[j];
          assert s[k + 1] == rest[j];
        }
      }
    }
  }
}
