/**
 * demo1.py's `quicksort`: pick a pivot element, split the list into the
 * elements below, equal to and above it (three list comprehensions), sort the
 * outer two recursively and concatenate.
 *
 * The source draws the pivot index with `random.randint(0, len(arr) - 1)`.
 * Here the draw is a parameter `pick` that may return any valid index for the
 * list at hand; every property below holds whatever `pick` does, and the
 * result does not depend on it at all.
 */
module QuickSort {

  ghost predicate Sorted(s: seq<int>)
  {
    forall i, j :: 0 <= i < j < |s| ==> s[i] <= s[j]
  }

  /** A pivot draw: for every list of at least two elements, an index into it. */
  ghost predicate ValidPick(pick: seq<int> -> nat)
  {
    forall s: seq<int> :: |s| > 1 ==> pick(s) < |s|
  }

  /** Which of the three comprehensions of `quicksort` an element belongs to. */
  datatype Side = Less | Equal | Greater

  predicate OnSide(x: int, pivot: int, side: Side)
  {
    match side
    case Less => x < pivot
    case Equal => x == pivot
    case Greater => x > pivot
  }

  /** `[x for x in s if x < pivot]`, `... x == pivot` or `... x > pivot`: the elements on `side`, in order. */
  function Part(s: seq<int>, pivot: int, side: Side): (r: seq<int>)
    ensures forall i :: 0 <= i < |r| ==> OnSide(r[i], pivot, side)
    ensures forall x :: multiset(r)[x] == if OnSide(x, pivot, side) then multiset(s)[x] else 0
  {
    if s == [] then []
    else
      assert s == [s[0]] + s[1..];
      (if OnSide(s[0], pivot, side) then [s[0]] else []) + Part(s[1..], pivot, side)
  }

  /** The three parts hold every element of `s` exactly once. */
  lemma PartitionCounts(s: seq<int>, pivot: int)
    ensures multiset(Part(s, pivot, Less)) + multiset(Part(s, pivot, Equal))
            + multiset(Part(s, pivot, Greater)) == multiset(s)
  {
    var m := multiset(Part(s, pivot, Less)) + multiset(Part(s, pivot, Equal))
             + multiset(Part(s, pivot, Greater));
    forall x ensures m[x] == multiset(s)[x] {
    }
  }

  /** A list with the same elements as one that lies on `side` of the pivot lies there too. */
  lemma SameElementsSameSide(a: seq<int>, b: seq<int>, pivot: int, side: Side)
    requires multiset(a) == multiset(b)
    requires forall i :: 0 <= i < |b| ==> OnSide(b[i], pivot, side)
    ensures forall i :: 0 <= i < |a| ==> OnSide(a[i], pivot, side)
  {
    forall i | 0 <= i < |a| ensures OnSide(a[i], pivot, side) {
      assert a[i] in multiset(b);
      var j :| 0 <= j < |b| && b[j] == a[i];
    }
  }

  /** Sorted parts that lie below, at and above `pivot` concatenate to a sorted list. */
  lemma SortedAround(left: seq<int>, middle: seq<int>, right: seq<int>, pivot: int)
    requires Sorted(left) && Sorted(right)
    requires forall i :: 0 <= i < |left| ==> left[i] < pivot
    requires forall i :: 0 <= i < |middle| ==> middle[i] == pivot
    requires forall i :: 0 <= i < |right| ==> right[i] > pivot
    ensures Sorted(left + middle + right)
  {
  }

  /** `quicksort(arr)`, with the pivot index drawn by `pick`. */
  function QuickSort(arr: seq<int>, pick: seq<int> -> nat): (r: seq<int>)
    requires ValidPick(pick)
    ensures Sorted(r)
    ensures multiset(r) == multiset(arr)
    ensures |arr| <= 1 ==> r == arr
    decreases |arr|
  {
    if |arr| <= 1 then arr
    else
      var pivot := arr[pick(arr)];
      var left := Part(arr, pivot, Less);
      var middle := Part(arr, pivot, Equal);
      var right := Part(arr, pivot, Greater);
      PartitionCounts(arr, pivot);
      assert |left| < |arr| && |right| < |arr| by {
        assert |multiset(left)| + |multiset(middle)| + |multiset(right)| == |arr|;
        assert multiset(middle)[pivot] > 0 by {
          assert pivot in multiset(arr);
        }
      }
      var sortedLeft := QuickSort(left, pick);
      var sortedRight := QuickSort(right, pick);
      SameElementsSameSide(sortedLeft, left, pivot, Less);
      SameElementsSameSide(sortedRight, right, pivot, Greater);
      SortedAround(sortedLeft, middle, sortedRight, pivot);
      sortedLeft + middle + sortedRight
  }

  lemma HeadIsLeast(s: seq<int>, x: int)
    requires Sorted(s) && x in s
    ensures s[0] <= x
  {
    var k :| 0 <= k < |s| && s[k] == x;
  }

  lemma SortedSplit(s: seq<int>)
    requires Sorted(s) && s != []
    ensures Sorted(s[1..])
  {
  }

  /** Sorted lists with the same elements start alike, and the rests have the same elements. */
  lemma SameHead(a: seq<int>, b: seq<int>)
    requires Sorted(a) && Sorted(b) && multiset(a) == multiset(b) && a != []
    ensures b != [] && a[0] == b[0] && multiset(a[1..]) == multiset(b[1..])
  {
    assert |a| == |multiset(a)| == |multiset(b)| == |b|;
    assert a[0] in multiset(b) && b[0] in multiset(a);
    HeadIsLeast(b, a[0]);
    HeadIsLeast(a, b[0]);
    assert a == [a[0]] + a[1..] && b == [b[0]] + b[1..];
    assert multiset(a[1..]) == multiset(a) - multiset{a[0]};
    assert multiset(b[1..]) == multiset(b) - multiset{b[0]};
  }

  /** Two sorted lists with the same elements (counted with multiplicity) are equal. */
  lemma {:induction false} SortedUnique(a: seq<int>, b: seq<int>)
    requires Sorted(a) && Sorted(b) && multiset(a) == multiset(b)
    ensures a == b
    decreases |a|
  {
    if a == [] {
      assert |b| == |multiset(b)| == 0;
    } else {
      SameHead(a, b);
      SortedSplit(a);
      SortedSplit(b);
      SortedUnique(a[1..], b[1..]);
      assert a == [a[0]] + a[1..] && b == [b[0]] + b[1..];
    }
  }

  /** Whichever pivots are drawn, `quicksort` returns the same list. */
  lemma PivotIrrelevant(arr: seq<int>, pick1: seq<int> -> nat, pick2: seq<int> -> nat)
    requires ValidPick(pick1) && ValidPick(pick2)
    ensures QuickSort(arr, pick1) == QuickSort(arr, pick2)
  {
    SortedUnique(QuickSort(arr, pick1), QuickSort(arr, pick2));
  }
}
