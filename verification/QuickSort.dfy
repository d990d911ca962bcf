/** Quicksort in place, with the last element of a range as its pivot. */
module QuickSort {

  /** The elements from `lo` up to, not including, `hi` are in order. */
  ghost predicate Sorted(s: seq<int>, lo: int, hi: int)
    requires 0 <= lo && hi <= |s|
  {
    forall i, j | lo <= i < j < hi :: s[i] <= s[j]
  }

  /** Only the elements from `lo` up to `hi` moved, and only among themselves. */
  ghost predicate Shuffled(after: seq<int>, before: seq<int>, lo: int, hi: int) {
    && |after| == |before|
    && multiset(after) == multiset(before)
    && forall k | 0 <= k < |before| && !(lo <= k < hi) :: after[k] == before[k]
  }

  lemma ShuffledTwice(c: seq<int>, b: seq<int>, a: seq<int>, lo: int, hi: int)
    requires Shuffled(b, a, lo, hi) && Shuffled(c, b, lo, hi)
    ensures Shuffled(c, a, lo, hi)
  {
  }

  /** The range itself holds the same elements as before. */
  lemma RangeIsPermuted(after: seq<int>, before: seq<int>, lo: int, hi: int)
    requires 0 <= lo <= hi <= |before| && Shuffled(after, before, lo, hi)
    ensures multiset(after[lo..hi]) == multiset(before[lo..hi])
  {
    CutInThree(after, lo, hi);
    CutInThree(before, lo, hi);
    assert after[..lo] == before[..lo] && after[hi..] == before[hi..];
    Cancel(multiset(before[..lo]), multiset(after[lo..hi]), multiset(before[lo..hi]), multiset(before[hi..]));
  }

  lemma Cancel(a: multiset<int>, x: multiset<int>, y: multiset<int>, c: multiset<int>)
    requires a + x + c == a + y + c
    ensures x == y
  {
    assert x == a + x + c - a - c;
    assert y == a + y + c - a - c;
  }

  lemma CutInThree(s: seq<int>, lo: int, hi: int)
    requires 0 <= lo <= hi <= |s|
    ensures multiset(s) == multiset(s[..lo]) + multiset(s[lo..hi]) + multiset(s[hi..])
  {
    assert s == s[..lo] + s[lo..hi] + s[hi..];
  }

  /** What is in a shuffled range was there before. */
  lemma ComesFromRange(after: seq<int>, before: seq<int>, lo: int, hi: int, k: int) returns (j: int)
    requires 0 <= lo <= k < hi <= |before| && Shuffled(after, before, lo, hi)
    ensures lo <= j < hi && before[j] == after[k]
  {
    RangeIsPermuted(after, before, lo, hi);
    assert after[lo..hi][k - lo] in multiset(after[lo..hi]);
    assert after[k] in before[lo..hi];
    j :| lo <= j < hi && before[j] == after[k];
  }

  method Swap(arr: array<int>, i: int, j: int)
    requires 0 <= i <= j < arr.Length
    modifies arr
    ensures arr[i] == old(arr[j]) && arr[j] == old(arr[i])
    ensures forall k | 0 <= k < arr.Length && k != i && k != j :: arr[k] == old(arr[k])
    ensures multiset(arr[..]) == multiset(old(arr[..]))
  {
    ghost var before := arr[..];
    var t := arr[i];
    arr[i] := arr[j];
    arr[j] := t;
    assert arr[..] == before[i := before[j]][j := before[i]];
  }

  /** The elements of the range are not above the pivot before `p`, and above it after `p`. */
  ghost predicate Split(s: seq<int>, lo: int, p: int, hi: int)
    requires 0 <= lo <= p <= hi < |s|
  {
    (forall k | lo <= k < p :: s[k] <= s[p]) && (forall k | p < k <= hi :: s[p] < s[k])
  }

  method Partition(arr: array<int>, lo: int, hi: int) returns (p: int)
    requires 0 <= lo <= hi < arr.Length
    modifies arr
    ensures lo <= p <= hi && Split(arr[..], lo, p, hi) && arr[p] == old(arr[hi])
    ensures Shuffled(arr[..], old(arr[..]), lo, hi + 1)
  {
    var pivot := arr[hi];
    var i := lo - 1;
    var j := lo;
    while j < hi
      invariant lo - 1 <= i < j <= hi && arr[hi] == pivot == old(arr[hi])
      invariant forall k | lo <= k <= i :: arr[k] <= pivot
      invariant forall k | i < k < j :: pivot < arr[k]
      invariant forall k | 0 <= k < arr.Length && !(lo <= k < hi) :: arr[k] == old(arr[k])
      invariant multiset(arr[..]) == multiset(old(arr[..]))
    {
      if arr[j] <= pivot {
        i := i + 1;
        Swap(arr, i, j);
      }
      j := j + 1;
    }
    Swap(arr, i + 1, hi);
    return i + 1;
  }

  /** Sorting the two sides of a split sorts the range. */
  lemma SidesSorted(c: seq<int>, b: seq<int>, a: seq<int>, lo: int, p: int, hi: int)
    requires 0 <= lo <= p <= hi < |a| && Split(a, lo, p, hi)
    requires Shuffled(b, a, lo, p) && Sorted(b, lo, p)
    requires Shuffled(c, b, p + 1, hi + 1) && Sorted(c, p + 1, hi + 1)
    ensures Sorted(c, lo, hi + 1) && Shuffled(c, a, lo, hi + 1)
  {
    forall k | lo <= k < p
      ensures c[k] == b[k] && c[k] <= c[p]
    {
      var j := ComesFromRange(b, a, lo, p, k);
    }
    forall k | p < k <= hi
      ensures c[p] < c[k]
    {
      var j := ComesFromRange(c, b, p + 1, hi + 1, k);
    }
  }

  /** Sorts the elements from `lo` to `hi`, both included; a range with `lo >= hi` is left alone. */
  method Quicksort(arr: array<int>, lo: int, hi: int)
    requires lo < hi ==> 0 <= lo && hi < arr.Length
    modifies arr
    ensures lo >= hi ==> arr[..] == old(arr[..])
    ensures lo < hi ==> Sorted(arr[..], lo, hi + 1)
    ensures Shuffled(arr[..], old(arr[..]), lo, hi + 1)
    decreases hi - lo
  {
    if lo < hi {
      ghost var before := arr[..];
      var p := Partition(arr, lo, hi);
      ghost var a := arr[..];
      Quicksort(arr, lo, p - 1);
      ghost var b := arr[..];
      Quicksort(arr, p + 1, hi);
      SidesSorted(arr[..], b, a, lo, p, hi);
      ShuffledTwice(arr[..], a, before, lo, hi + 1);
    }
  }

  /** There is one sorted arrangement, so sorted and shuffled say exactly what is in the array. */
  lemma {:induction false} SortedIsUnique(a: seq<int>, b: seq<int>)
    requires Sorted(a, 0, |a|) && Sorted(b, 0, |b|) && multiset(a) == multiset(b)
    ensures a == b
  {
    assert |a| == |multiset(a)| == |multiset(b)| == |b|;
    if a != [] {
      FirstIsLeast(a, b);
      FirstIsLeast(b, a);
      SortedIsUnique(a[1..], b[1..]);
      assert a == [a[0]] + a[1..] && b == [b[0]] + b[1..];
    }
  }

  lemma FirstIsLeast(a: seq<int>, b: seq<int>)
    requires a != [] && b != [] && Sorted(a, 0, |a|) && multiset(a) == multiset(b)
    ensures a[0] <= b[0] && multiset(a[1..]) == multiset(a) - multiset{a[0]}
  {
    assert a == [a[0]] + a[1..];
    assert b[0] in multiset(a);
  }

  predicate IsLeast(x: int, s: seq<int>) {
    x in s && forall k | 0 <= k < |s| :: x <= s[k]
  }

  predicate IsGreatest(x: int, s: seq<int>) {
    x in s && forall k | 0 <= k < |s| :: s[k] <= x
  }

  lemma EndsOfSorted(sorted: seq<int>, given: seq<int>)
    requires sorted != [] && Sorted(sorted, 0, |sorted|) && multiset(sorted) == multiset(given)
    ensures IsLeast(sorted[0], given) && IsGreatest(sorted[|sorted| - 1], given)
  {
    assert sorted[0] in multiset(given) && sorted[|sorted| - 1] in multiset(given);
    forall k | 0 <= k < |given|
      ensures sorted[0] <= given[k] <= sorted[|sorted| - 1]
    {
      assert given[k] in multiset(sorted);
    }
  }

  /** What the benchmark does with its data: it sorts them and adds the first and the last. */
  method SortAndAddEnds(arr: array<int>) returns (result: int)
    requires arr.Length > 0
    modifies arr
    ensures exists lo, hi :: IsLeast(lo, old(arr[..])) && IsGreatest(hi, old(arr[..])) && result == lo + hi
    ensures Sorted(arr[..], 0, arr.Length) && multiset(arr[..]) == multiset(old(arr[..]))
  {
    var n := arr.Length;
    assert n == 1 ==> Sorted(arr[..], 0, n);
    Quicksort(arr, 0, n - 1);
    result := arr[0] + arr[n - 1];
    EndsOfSorted(arr[..], old(arr[..]));
    assert arr[..][0] == arr[0] && arr[..][n - 1] == arr[n - 1];
  }
}
