/** Hoare's partition scheme, in the variant the scene uses, and the
    quicksort driver built on it. The pivot value is the key in the middle
    slot; two cursors close in from both ends of the range, and after a swap
    the scans resume from the very slots just swapped. */
module Hoare {
  import opened SequenceStore

  /** The middle slot of low..high, rounded down. */
  function Mid(low: int, high: int): (m: int)
    requires low <= high
    ensures low <= m <= high
    ensures low < high ==> m < high
  {
    (low + high) / 2
  }

  /** a[low..high] ends in its strict maximum. */
  predicate EndsInStrictMax(s: seq<int>, low: int, high: int) {
    0 <= low <= high < |s| && forall k :: low <= k < high ==> s[k] < s[high]
  }

  /** Partitions a[low..high] around the key v in its middle slot and
      returns the split slot p: every key up to p is at most v, every key
      after it (up to high) is at least v. The key v must occur in the range
      only in the middle slot: with two slots holding v the cursors can stop
      on both and swap them forever. */
  method Partition(a: array<int>, low: int, high: int) returns (p: int)
    requires 0 <= low <= high < a.Length
    requires forall k :: low <= k <= high && a[k] == a[Mid(low, high)] ==> k == Mid(low, high)
    modifies a
    ensures low <= p <= high
    ensures forall k :: low <= k <= p ==> a[k] <= old(a[Mid(low, high)])
    ensures forall k :: p < k <= high ==> a[k] >= old(a[Mid(low, high)])
    ensures PermutedWithin(old(a[..]), a[..], low, high)
    // The split can be the last slot only when the pivot ends there, above
    // every other key of the range.
    ensures p == high ==> a[high] == old(a[Mid(low, high)]) && EndsInStrictMax(a[..], low, high)
  {
    var mid := Mid(low, high);
    var pivot := a[mid];
    var lo, hi := low, high;
    // The one slot of the range that holds the pivot value, and a slot at
    // which each scan is sure to stop.
    ghost var slot := mid;
    ghost var leftStop, rightStop := mid, mid;
    while true
      invariant low <= lo <= hi <= high
      invariant forall k :: low <= k < lo ==> a[k] <= pivot
      invariant forall k :: hi < k <= high ==> a[k] >= pivot
      invariant lo <= leftStop <= hi && a[leftStop] >= pivot
      invariant lo <= rightStop <= hi && a[rightStop] <= pivot
      invariant low <= slot <= high && a[slot] == pivot
      invariant forall k :: low <= k <= high && a[k] == pivot ==> k == slot
      invariant PermutedWithin(old(a[..]), a[..], low, high)
      decreases hi - lo + (if a[lo] < pivot || a[hi] > pivot then 0 else 1)
    {
      ghost var lo0, hi0 := lo, hi;
      while a[lo] < pivot
        invariant lo0 <= lo <= leftStop
        invariant forall k :: low <= k < lo ==> a[k] <= pivot
        decreases leftStop - lo
      {
        lo := lo + 1;
      }
      while a[hi] > pivot
        invariant rightStop <= hi <= hi0
        invariant forall k :: hi < k <= high ==> a[k] >= pivot
        decreases hi - rightStop
      {
        hi := hi - 1;
      }
      if lo >= hi {
        if hi == high {
          AloneAtEnd(a[..], low, high, slot, pivot);
        }
        return hi;
      }
      ghost var before := a[..];
      Swap(a, lo, hi);
      leftStop, rightStop := hi, lo;
      slot := SwappedSlot(before, a[..], low, high, lo, hi, slot, pivot);
    }
  }

  /** Where the one slot holding v within low..high is after slots lo and
      hi of that range are swapped: it follows its key. */
  ghost function SwappedSlot(s: seq<int>, t: seq<int>, low: int, high: int, lo: int, hi: int, slot: int, v: int): (r: int)
    requires |s| == |t| && 0 <= low <= lo <= hi <= high < |s|
    requires t[lo] == s[hi] && t[hi] == s[lo]
    requires forall k :: 0 <= k < |s| && k != lo && k != hi ==> t[k] == s[k]
    requires low <= slot <= high && s[slot] == v
    requires forall k :: low <= k <= high && s[k] == v ==> k == slot
    ensures low <= r <= high && t[r] == v
    ensures forall k :: low <= k <= high && t[k] == v ==> k == r
  {
    if slot == lo then hi else if slot == hi then lo else slot
  }

  /** A range whose keys are at most v, with v at its end and in no other
      slot, ends in its strict maximum. */
  lemma AloneAtEnd(s: seq<int>, low: int, high: int, slot: int, v: int)
    requires 0 <= low <= high < |s| && s[high] == v
    requires forall k :: low <= k < high ==> s[k] <= v
    requires forall k :: low <= k <= high && s[k] == v ==> k == slot
    ensures EndsInStrictMax(s, low, high)
  {
  }

  /** Why Partition asks for the pivot value in one slot only: once both
      cursors rest on slots holding the pivot value (on [5, 5], say, from
      the start), neither scan moves, the cursors have not met, and the swap
      leaves the keys as they were, so the outer loop repeats the same
      iteration forever. */
  lemma EqualKeysLivelock(s: seq<int>, lo: int, hi: int, pivot: int)
    requires 0 <= lo < hi < |s| && s[lo] == pivot && s[hi] == pivot
    ensures !(s[lo] < pivot) && !(s[hi] > pivot)
    ensures s[lo := s[hi]][hi := s[lo]] == s
  {
  }

  /** Sorts a[low..high] in place, provided its keys are distinct. A range
      of at most one slot is left as it is; otherwise the range is
      partitioned and sorted on both sides of the split, the split slot
      itself going to the left side. When the split is high itself the left
      call sorts the same range again; it then ends in its strict maximum,
      which the second component of the measure records. */
  method Quicksort(a: array<int>, low: int, high: int)
    requires 0 <= low <= high + 1 <= a.Length
    requires Distinct(a[low..high + 1])
    modifies a
    ensures PermutedWithin(old(a[..]), a[..], low, high)
    ensures Sorted(a[low..high + 1])
    ensures low >= high ==> a[..] == old(a[..])
    decreases high - low, if EndsInStrictMax(a[..], low, high) then 0 else 1
  {
    if low < high {
      ghost var s0 := a[..];
      PivotAlone(s0, low, high);
      var pi := Partition(a, low, high);
      ghost var s1 := a[..];
      if pi == high && EndsInStrictMax(s0, low, high) {
        StrictMaxStays(s0, s1, low, high);
        assert false;
      }
      DistinctSides(s0, s1, low, pi, high);
      Quicksort(a, low, pi);
      ghost var s2 := a[..];
      assert s2[pi + 1..high + 1] == s1[pi + 1..high + 1];
      Quicksort(a, pi + 1, high);
      ghost var s3 := a[..];

      SortedAroundSplit(s1, s2, s3, low, pi, high, s0[Mid(low, high)]);
    } else if low == high {
      assert a[..] == old(a[..]);
    }
  }

  /** Hoare's partition as it is usually written: after a swap both cursors
      step past the two slots just swapped. Keys equal to the pivot can then
      no longer hold the cursors in place, so any keys may be partitioned,
      and the split slot stays below high, so both sides of it are smaller
      than the range. */
  method PartitionAdvancing(a: array<int>, low: int, high: int) returns (p: int)
    requires 0 <= low < high < a.Length
    modifies a
    ensures low <= p < high
    ensures forall k :: low <= k <= p ==> a[k] <= old(a[Mid(low, high)])
    ensures forall k :: p < k <= high ==> a[k] >= old(a[Mid(low, high)])
    ensures PermutedWithin(old(a[..]), a[..], low, high)
  {
    var mid := Mid(low, high);
    var pivot := a[mid];
    var lo, hi := low, high;
    // A slot at which each scan is sure to stop.
    ghost var leftStop, rightStop := mid, mid;
    while true
      invariant low <= lo && hi <= high && lo - 1 <= hi
      invariant forall k :: low <= k < lo ==> a[k] <= pivot
      invariant forall k :: hi < k <= high ==> a[k] >= pivot
      invariant lo <= leftStop <= high && a[leftStop] >= pivot
      invariant low <= rightStop <= hi && a[rightStop] <= pivot
      // Only the first round may end at high, and it stops by mid.
      invariant hi < high || leftStop == mid
      invariant PermutedWithin(old(a[..]), a[..], low, high)
      decreases hi - lo + 1
    {
      ghost var lo0, hi0 := lo, hi;
      while a[lo] < pivot
        invariant lo0 <= lo <= leftStop
        invariant forall k :: low <= k < lo ==> a[k] <= pivot
        decreases leftStop - lo
      {
        lo := lo + 1;
      }
      while a[hi] > pivot
        invariant rightStop <= hi <= hi0
        invariant forall k :: hi < k <= high ==> a[k] >= pivot
        decreases hi - rightStop
      {
        hi := hi - 1;
      }
      if lo >= hi {
        return hi;
      }
      Swap(a, lo, hi);
      leftStop, rightStop := hi, lo;
      lo, hi := lo + 1, hi - 1;
    }
  }

  /** Sorts a[low..high] in place for any keys, by the driver of Quicksort
      on PartitionAdvancing. */
  method QuicksortAdvancing(a: array<int>, low: int, high: int)
    requires 0 <= low <= high + 1 <= a.Length
    modifies a
    ensures PermutedWithin(old(a[..]), a[..], low, high)
    ensures Sorted(a[low..high + 1])
    ensures low >= high ==> a[..] == old(a[..])
    decreases high - low
  {
    if low < high {
      ghost var s0 := a[..];
      var pi := PartitionAdvancing(a, low, high);
      ghost var s1 := a[..];
      QuicksortAdvancing(a, low, pi);
      ghost var s2 := a[..];
      assert s2[pi + 1..high + 1] == s1[pi + 1..high + 1];
      QuicksortAdvancing(a, pi + 1, high);
      ghost var s3 := a[..];

      SortedAroundSplit(s1, s2, s3, low, pi, high, s0[Mid(low, high)]);
    } else if low == high {
      assert a[..] == old(a[..]);
    }
  }

  /** In a range of distinct keys the middle key occurs only in the middle
      slot, as Partition requires. */
  lemma PivotAlone(s: seq<int>, low: int, high: int)
    requires 0 <= low <= high < |s| && Distinct(s[low..high + 1])
    ensures forall k :: low <= k <= high && s[k] == s[Mid(low, high)] ==> k == Mid(low, high)
  {
    forall k | low <= k <= high && s[k] == s[Mid(low, high)] ensures k == Mid(low, high) {
      assert s[low..high + 1][k - low] == s[low..high + 1][Mid(low, high) - low];
    }
  }

  /** A partition of a range of distinct keys leaves distinct keys on both
      sides of the split, so both recursive calls may be made. */
  lemma DistinctSides(s: seq<int>, t: seq<int>, low: int, p: int, high: int)
    requires PermutedWithin(s, t, low, high) && 0 <= low <= p <= high < |s|
    requires Distinct(s[low..high + 1])
    ensures Distinct(t[low..p + 1]) && Distinct(t[p + 1..high + 1])
  {
    PermutedRange(s, t, low, high);
    DistinctPermuted(s[low..high + 1], t[low..high + 1]);
    assert t[low..p + 1] == t[low..high + 1][..p + 1 - low];
    assert t[p + 1..high + 1] == t[low..high + 1][p + 1 - low..];
  }

  /** Rearranging a range cannot change which key is its strict maximum:
      if both arrangements end in their strict maximum, they end in the
      same key. */
  lemma StrictMaxStays(s: seq<int>, t: seq<int>, low: int, high: int)
    requires PermutedWithin(s, t, low, high)
    requires EndsInStrictMax(s, low, high) && EndsInStrictMax(t, low, high)
    ensures s[high] == t[high]
  {
    PermutedFrom(s, t, low, high);
    PermutedFrom(t, s, low, high);
  }

  /** The step that makes Quicksort correct: once the split p separates
      keys at most v from keys at least v, sorting each side in place (s1 to
      s2 left, s2 to s3 right) sorts the whole range. */
  lemma SortedAroundSplit(s1: seq<int>, s2: seq<int>, s3: seq<int>, low: int, p: int, high: int, v: int)
    requires 0 <= low <= p <= high < |s1|
    requires forall k :: low <= k <= p ==> s1[k] <= v
    requires forall k :: p < k <= high ==> s1[k] >= v
    requires PermutedWithin(s1, s2, low, p) && Sorted(s2[low..p + 1])
    requires PermutedWithin(s2, s3, p + 1, high) && Sorted(s3[p + 1..high + 1])
    ensures Sorted(s3[low..high + 1])
  {
    PermutedFrom(s1, s2, low, p);
    PermutedFrom(s2, s3, p + 1, high);
    assert s3[low..p + 1] == s2[low..p + 1];
    SortedJoin(s3, low, p + 1, high + 1, v);
  }
}
