/** Lomuto's partition scheme and the quicksort driver built on it. The pivot
    is the last key of the range; a boundary i marks the end of the zone of
    keys at most the pivot, a scan j walks the rest of the range, and a last
    swap puts the pivot between the two zones. */
module Lomuto {
  import opened SequenceStore

  /** Partitions a[low..high] around the pivot a[high] and returns the slot
      the pivot ends up in: every key before it is at most the pivot, every
      key after it (up to high) is greater. Only slots of the range move. */
  method Partition(a: array<int>, low: int, high: int) returns (p: int)
    requires 0 <= low <= high < a.Length
    modifies a
    ensures low <= p <= high && a[p] == old(a[high])
    ensures forall k :: low <= k < p ==> a[k] <= a[p]
    ensures forall k :: p < k <= high ==> a[k] > a[p]
    ensures PermutedWithin(old(a[..]), a[..], low, high)
    // On a range whose keys are all at most the pivot (a sorted range, say)
    // every swap is a self-swap: the pivot stays at high and nothing moves.
    ensures (forall k :: low <= k < high ==> old(a[k]) <= old(a[high])) ==>
              p == high && a[..] == old(a[..])
  {
    var pivot := a[high];
    var i := low - 1;
    for j := low to high
      invariant low - 1 <= i < j
      invariant forall k :: low <= k <= i ==> a[k] <= pivot
      invariant forall k :: i < k < j ==> a[k] > pivot
      invariant a[high] == pivot
      invariant PermutedWithin(old(a[..]), a[..], low, high)
      invariant (forall k :: low <= k < j ==> old(a[k]) <= pivot) ==> i == j - 1 && a[..] == old(a[..])
    {
      if a[j] <= pivot {
        i := i + 1;
        Swap(a, i, j);
      }
    }
    i := i + 1;
    Swap(a, i, high);
    p := i;
  }

  /** The step that makes Quicksort correct: once the pivot's slot pi splits
      the range, sorting each side in place (s1 to s2 left, s2 to s3 right)
      sorts the whole range. */
  lemma SortedAroundPivot(s1: seq<int>, s2: seq<int>, s3: seq<int>, low: int, pi: int, high: int)
    requires 0 <= low <= pi <= high < |s1|
    requires forall k :: low <= k < pi ==> s1[k] <= s1[pi]
    requires forall k :: pi < k <= high ==> s1[k] > s1[pi]
    requires PermutedWithin(s1, s2, low, pi - 1) && Sorted(s2[low..pi])
    requires PermutedWithin(s2, s3, pi + 1, high) && Sorted(s3[pi + 1..high + 1])
    ensures Sorted(s3[low..high + 1])
  {
    PermutedFrom(s1, s2, low, pi - 1);
    PermutedFrom(s2, s3, pi + 1, high);
    assert s3[low..pi] == s2[low..pi];
    SortedJoin(s3, pi, pi + 1, high + 1, s1[pi]);
    SortedJoin(s3, low, pi, high + 1, s1[pi]);
  }

  /** Sorts a[low..high] in place. A range of at most one slot is left as
      it is; otherwise the range is partitioned and the two sides of the
      pivot's slot are sorted, the slot itself excluded from both. */
  method Quicksort(a: array<int>, low: int, high: int)
    requires 0 <= low <= high + 1 <= a.Length
    modifies a
    ensures PermutedWithin(old(a[..]), a[..], low, high)
    ensures Sorted(a[low..high + 1])
    ensures low >= high ==> a[..] == old(a[..])
    decreases high - low
  {
    if low < high {
      var pi := Partition(a, low, high);
      ghost var s1 := a[..];
      Quicksort(a, low, pi - 1);
      ghost var s2 := a[..];
      Quicksort(a, pi + 1, high);
      ghost var s3 := a[..];

      SortedAroundPivot(s1, s2, s3, low, pi, high);
    } else if low == high {
      assert a[..] == old(a[..]);
    }
  }
}
