/** The two `Array.prototype` built-ins whose exact semantics the handlers depend on. */
module JsArray {

  /** `s.findIndex(e => e === x)`: the first index holding `x`, or -1 when there is none. */
  function FindIndex<T(==)>(s: seq<T>, x: T): (r: int)
    ensures -1 <= r < |s|
    ensures r == -1 <==> x !in s
    ensures 0 <= r ==> s[r] == x && forall k :: 0 <= k < r ==> s[k] != x
  {
    if s == [] then -1
    else if s[0] == x then 0
    else
      var r := FindIndex(s[1..], x);
      if r == -1 then -1 else r + 1
  }

  /** Where `splice` starts on an array of length `len`: a start within one length either
      side of 0 is taken modulo `len`, so a negative one counts back from the end; a start
      further back is clamped at 0, and one past the end at `len`. */
  function SpliceStart(len: nat, start: int): (k: nat)
    ensures k <= len
    ensures -(len as int) <= start < len ==> k == start % len
    ensures start < -(len as int) ==> k == 0
    ensures start >= len ==> k == len
  {
    if start < 0 then (if len + start < 0 then 0 else len + start)
    else if start < len then start
    else len
  }

  /** The array `s.splice(start, 1)` leaves behind: one element deleted at the
      (clamped) start, the rest kept in order; nothing deleted when the start is the end. */
  function SpliceOne<T>(s: seq<T>, start: int): (r: seq<T>)
    ensures 0 <= start < |s| ==>
              |r| == |s| - 1 &&
              (forall k :: 0 <= k < start ==> r[k] == s[k]) &&
              (forall k :: start <= k < |r| ==> r[k] == s[k + 1])
    ensures start == -1 && s != [] ==> r == s[..|s| - 1]
    ensures s == [] || start >= |s| ==> r == s
  {
    var k := SpliceStart(|s|, start);
    if k < |s| then s[..k] + s[k + 1..] else s
  }

  /** Deleting one element at a valid index takes exactly that element out of the multiset. */
  lemma SpliceOneMultiset<T>(s: seq<T>, start: int)
    requires 0 <= start < |s|
    ensures multiset(SpliceOne(s, start)) + multiset{s[start]} == multiset(s)
  {
    DeleteAtMultiset(s, start);
  }

  lemma DeleteAtMultiset<T>(s: seq<T>, i: nat)
    requires i < |s|
    ensures multiset(s[..i] + s[i + 1..]) + multiset{s[i]} == multiset(s)
  {
    assert s == s[..i] + [s[i]] + s[i + 1..];
  }

  /** No element occurs twice. */
  predicate Distinct<T(==)>(s: seq<T>)
  {
    forall i, j :: 0 <= i < j < |s| ==> s[i] != s[j]
  }

  /** Deleting at a `findIndex` result keeps the remaining elements distinct. */
  lemma SpliceOneKeepsDistinct<T>(s: seq<T>, start: int)
    requires Distinct(s)
    requires -1 <= start < |s|
    ensures Distinct(SpliceOne(s, start))
  {
    var r := SpliceOne(s, start);
    if s != [] {
      var k := if start == -1 then |s| - 1 else start;
      assert |r| == |s| - 1;
      assert forall i :: 0 <= i < |r| ==> r[i] == (if i < k then s[i] else s[i + 1]);
    }
  }

  /** Deleting `x` itself: its first occurrence is removed and the rest keep their order;
      nothing is removed when `x` is absent. */
  function Remove<T(==)>(s: seq<T>, x: T): (r: seq<T>)
    ensures x !in s ==> r == s
    ensures x in s ==> |r| == |s| - 1
  {
    var i := FindIndex(s, x);
    if i == -1 then s else s[..i] + s[i + 1..]
  }

  /** What is removed is the first occurrence of `x`: the elements before it and after it
      keep their order. */
  lemma RemoveFirstOccurrence<T>(s: seq<T>, x: T)
    requires x in s
    ensures exists i :: 0 <= i < |s| && s[i] == x && (forall k :: 0 <= k < i ==> s[k] != x) &&
                        Remove(s, x) == s[..i] + s[i + 1..]
  {
    var i := FindIndex(s, x);
    assert s[i] == x && (forall k :: 0 <= k < i ==> s[k] != x);
  }

  /** Removing `x` keeps every other element and brings in none; in a sequence without
      repetitions it leaves no `x` behind and no repetition. */
  lemma RemoveContents<T>(s: seq<T>, x: T)
    ensures forall y :: y in Remove(s, x) ==> y in s
    ensures forall y :: y in s && y != x ==> y in Remove(s, x)
    ensures Distinct(s) ==> x !in Remove(s, x) && Distinct(Remove(s, x))
  {
    if x in s {
      var i := FindIndex(s, x);
      var r := Remove(s, x);
      assert r == s[..i] + s[i + 1..];
      assert forall k :: 0 <= k < |r| ==> r[k] == (if k < i then s[k] else s[k + 1]);
      forall y | y in s && y != x
        ensures y in r
      {
        var j :| 0 <= j < |s| && s[j] == y;
        assert r[if j < i then j else j - 1] == y;
      }
    }
  }

  /** Removing `x` takes exactly one `x` out of the multiset, or nothing when there is none. */
  lemma RemoveMultiset<T>(s: seq<T>, x: T)
    ensures multiset(Remove(s, x)) == multiset(s) - multiset{x}
  {
    if x in s {
      DeleteAtMultiset(s, FindIndex(s, x));
    }
  }
}
