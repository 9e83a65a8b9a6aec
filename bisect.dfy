/** Python's `bisect.bisect_left` and `bisect.insort_left`, on sample lists.

    `InsertionPoint` is the reference: the index of the first element that
    is not smaller than the key, found by a linear scan.  `BisectLeft` is the
    binary search the library runs; on a sorted list the two agree. */
module Bisect {
  import opened Samples

  /** Number of leading elements smaller than `x`: the leftmost place where
      `x` can go without an element smaller than it standing after it. */
  function InsertionPoint(s: seq<Sample>, x: Sample): (j: nat)
    ensures j <= |s|
    ensures forall i :: 0 <= i < j ==> Less(s[i], x)
    ensures j < |s| ==> !Less(s[j], x)
  {
    if s == [] then 0
    else if Less(s[0], x) then 1 + InsertionPoint(s[1..], x)
    else 0
  }

  /** On a sorted list, nothing from the insertion point on is smaller than
      the key, so the insertion point splits the list into `< x` and `>= x`. */
  lemma InsertionPointSplits(s: seq<Sample>, x: Sample)
    requires Sorted(s)
    ensures forall i :: InsertionPoint(s, x) <= i < |s| ==> LessEq(x, s[i])
  {
    var j := InsertionPoint(s, x);
    forall i | j <= i < |s| ensures LessEq(x, s[i]) {
      assert LessEq(s[j], s[i]);
      LessIsStrictTotalOrder(s[j], x, s[i]);
    }
  }

  /** An index that splits a list into elements `< x` before it and elements
      not `< x` from it on can only be the insertion point. */
  lemma InsertionPointUnique(s: seq<Sample>, x: Sample, j: nat)
    requires j <= |s|
    requires forall i :: 0 <= i < j ==> Less(s[i], x)
    requires forall i :: j <= i < |s| ==> !Less(s[i], x)
    ensures j == InsertionPoint(s, x)
  {
    var k := InsertionPoint(s, x);
    if j < |s| {
      assert !Less(s[j], x);
    }
    if k < |s| {
      assert !Less(s[k], x);
    }
  }

  /** `bisect_left(a, x)`: binary search for the leftmost insertion point.
      The index is always within bounds; on a sorted list everything before
      it is `< x`, everything from it on is `>= x`, and it is the index the
      linear scan finds. */
  method BisectLeft(a: seq<Sample>, x: Sample) returns (j: nat)
    ensures j <= |a|
    ensures Sorted(a) ==> forall i :: 0 <= i < j ==> Less(a[i], x)
    ensures Sorted(a) ==> forall i :: j <= i < |a| ==> !Less(a[i], x)
    ensures Sorted(a) ==> j == InsertionPoint(a, x)
  {
    var lo, hi := 0, |a|;
    while lo < hi
      invariant 0 <= lo <= hi <= |a|
      invariant Sorted(a) ==> forall i :: 0 <= i < lo ==> Less(a[i], x)
      invariant Sorted(a) ==> forall i :: hi <= i < |a| ==> !Less(a[i], x)
    {
      var mid := (lo + hi) / 2;
      if Less(a[mid], x) {
        lo := mid + 1;
      } else {
        hi := mid;
      }
    }
    j := lo;
    if Sorted(a) {
      InsertionPointUnique(a, x, j);
    }
  }

  /** `insort_left(a, x)`: insert `x` at `bisect_left(a, x)`.  On a sorted
      list the result is the list with `x` spliced in at its insertion point. */
  method InsortLeft(a: seq<Sample>, x: Sample) returns (r: seq<Sample>)
    ensures |r| == |a| + 1
    ensures multiset(r) == multiset(a) + multiset{x}
    ensures Sorted(a) ==> r == a[..InsertionPoint(a, x)] + [x] + a[InsertionPoint(a, x)..]
  {
    var j := BisectLeft(a, x);
    r := a[..j] + [x] + a[j..];
    assert a == a[..j] + a[j..];
  }
}
