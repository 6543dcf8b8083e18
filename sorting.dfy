/** The sorted view of the movements list: `movements.slice().sort((a, b) => a - b)`.
    `slice` copies the array, so sorting never touches the account's own movements; the
    comparator `a - b` orders numbers ascending. Any correct sort gives the same result
    (`SortedUnique`), so the copy is modelled by insertion sort. */
module Sorting {

  ghost predicate IsSorted(s: seq<int>)
  {
    forall i, j :: 0 <= i < j < |s| ==> s[i] <= s[j]
  }

  /** `x` inserted into the sorted `s` before the first element not smaller than it. */
  function Insert(x: int, s: seq<int>): (r: seq<int>)
    requires IsSorted(s)
    ensures IsSorted(r)
    ensures multiset(r) == multiset(s) + multiset{x}
  {
    if s == [] || x <= s[0] then
      ConsSorted(x, s);
      [x] + s
    else
      assert s == [s[0]] + s[1..];
      var rest := Insert(x, s[1..]);
      assert multiset(s[1..] + [x]) == multiset(rest);
      PermutationKeepsLowerBound(s[0], s[1..] + [x], rest);
      ConsSorted(s[0], rest);
      [s[0]] + rest
  }

  /** An element no larger than the head of a sorted sequence can go in front of it. */
  lemma ConsSorted(x: int, s: seq<int>)
    requires IsSorted(s)
    requires s == [] || x <= s[0]
    ensures IsSorted([x] + s)
  {
  }

  /** A lower bound of every element of `a` bounds every element of a permutation of `a`. */
  lemma PermutationKeepsLowerBound(lo: int, a: seq<int>, b: seq<int>)
    requires multiset(a) == multiset(b)
    requires forall k :: 0 <= k < |a| ==> lo <= a[k]
    ensures forall k :: 0 <= k < |b| ==> lo <= b[k]
  {
    forall k | 0 <= k < |b|
      ensures lo <= b[k]
    {
      assert b[k] in multiset(a);
      var j :| 0 <= j < |a| && a[j] == b[k];
    }
  }

  /** The ascending copy of `s`. */
  function SortedCopy(s: seq<int>): (r: seq<int>)
    ensures IsSorted(r)
    ensures multiset(r) == multiset(s)
  {
    if s == [] then []
    else
      assert s == [s[0]] + s[1..];
      Insert(s[0], SortedCopy(s[1..]))
  }

  /** A multiset has only one ascending arrangement. */
  lemma {:induction false} SortedUnique(a: seq<int>, b: seq<int>)
    requires IsSorted(a) && IsSorted(b)
    requires multiset(a) == multiset(b)
    ensures a == b
  {
    if a != [] {
      assert |b| == |multiset(b)| == |multiset(a)| == |a|;
      assert a[0] in multiset(b);
      assert b[0] in multiset(a);
      assert a[0] == b[0];
      assert a == [a[0]] + a[1..];
      assert b == [b[0]] + b[1..];
      assert multiset(a[1..]) == multiset(a) - multiset{a[0]};
      assert multiset(b[1..]) == multiset(b) - multiset{b[0]};
      SortedUnique(a[1..], b[1..]);
    }
  }

  /** Sorting an already ascending list returns it unchanged; in particular sorting twice is sorting once. */
  lemma SortedCopyOfSorted(s: seq<int>)
    requires IsSorted(s)
    ensures SortedCopy(s) == s
  {
    SortedUnique(SortedCopy(s), s);
  }

  /** The view depends only on which amounts the account holds, not on their order. */
  lemma SortedCopyOfPermutation(a: seq<int>, b: seq<int>)
    requires multiset(a) == multiset(b)
    ensures SortedCopy(a) == SortedCopy(b)
  {
    SortedUnique(SortedCopy(a), SortedCopy(b));
  }

  /** The list `displayMovements` renders: the sorted copy when `sort` is set, the movements themselves otherwise. */
  function DisplayedMovements(movements: seq<int>, sort: bool): (r: seq<int>)
    ensures multiset(r) == multiset(movements)
    ensures sort ==> IsSorted(r)
    ensures !sort ==> r == movements
  {
    if sort then SortedCopy(movements) else movements
  }
}
